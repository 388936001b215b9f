# KQM bot: constants, templates and command gate

A Dafny model of the core of the KQM Discord bot. It covers:

- **The template engine.** `substituteTemplateLiterals` walks a nested tree of constants. It replaces `{{ path }}` and `${ path }` placeholders in a string with the tree's leaves.
- **The two tree transformers.** `urlEncodeValues` and `keysToUpperCase` build a copy of a tree: the first percent-encodes every leaf, the second upper-cases every key.
- **The per-event constants builder.** `constantsFromObject` builds the `@DATE`, `@USER` and `@OPTIONS` branches.
- **The permission rule.** `hasPermission` makes a blacklist/whitelist decision over a member's role ids.
- **The bot handler's decisions.**
  - loading the live constants and config, with their fallback to `{}`
  - registering the command list, de-duplicated by name
  - the permission gate and command resolution of the `interactionCreate` handler

## How JavaScript values are modelled

A JavaScript value is the datatype `JsValue.Value`:

- strings, integers, booleans and `null`
- arrays
- objects, written as ordered association lists, because `Object.keys` order is observable

Assigning a property (`JsValue.Put`) overwrites an existing key in place and appends a new one. A loop that assigns into a fresh `{}` is `JsValue.FromEntries`.

Because `typeof null === 'object'`, the transformers call `Object.keys(null)` and throw. The model returns `Failure(TypeError)` in that case, and every failure lemma states exactly when that happens.

## Module by module

- **`UriEncoding`:** ECMAScript `encodeURIComponent` (ECMA-262, section 19.2.6.5).
  - It leaves the ASCII letters, the digits and `-_.!~*'()` unchanged.
  - It writes every other character as the `%XX` upper-case hex escapes of its UTF-8 octets.
  - `UriEncoding.DecodeEncode` proves that decoding undoes the encoding.
- **`TreeTransforms`:** one generic rebuild loop, `RebuildObject`, shared by `UrlEncodeValues` and `KeysToUpperCase`. It is proved equal to the recursive definition `Rebuild`, and the two transformers are instances of it.
- **`Template`:** the placeholder matcher, `ReplaceAll`.
  - It follows the regular expression `open\s*?PATH\s*?close` exactly, including the lazy quantifier and JavaScript's `\s` set.
  - The walk's leaves, `LeavesOf`, come in depth-first key order, with arrays skipped.
  - `Template.Traverse` is the walk as a method. It is proved equal to applying the leaves in order (`Apply`).
  - `Template.ConstantsTree` is the constants object passed by reference. Its `SubstituteTemplateLiterals` first writes `@ENCODED` into it, then walks it.
- **`TemplateLemmas` and `TemplateExamples`:** what the engine guarantees.
  - which placeholders are replaced and which are left as they are
  - what `@ENCODED` holds
  - worked examples
- **`ContextConstants`:** `constantsFromObject`. The clock readings and the user's avatar URL are inputs.
- **`Permissions`:** `hasPermission`.
- **`CommandRegistry`:** the de-duplication loop of `registerCommands`.
- **`BotHandler`:** the class `DiscordBotHandler`.
  - It holds the live constants (a `ConstantsTree`), the live config and the log of registrations sent.
  - File contents, YAML parsers and the command managers' lookups are parameters.

Four behaviours of the code are easy to miss:

- **Rule key separator.** The permission rule key is built with `path.join`, so on a POSIX host a subcommand is joined with `/`, not with `.` (src/index.ts:89).
- **When `@OPTIONS` exists.** It is created only once a non-subcommand option is seen, so a command with no value options has none (src/utils.ts:64-65).
- **Refusal reply.** A refused autocomplete request gets no reply; only slash commands get the refusal reply (src/index.ts:93-94).
- **Empty config document.** A `config.yaml` that is empty, holds only comments or holds `~` loads as `undefined` or `null`, and `loadConfig` stores that without throwing (src/index.ts:214-218). Every later slash command or autocomplete request then throws when the handler reads the permission rules (src/index.ts:90), and the handler's `catch` takes over (src/index.ts:117-125).

## Model

| member | source | states |
|---|---|---|
| `JsValue.Put` | src/utils.ts:84-86 | after `obj[k] = v`, `k` reads back `v` and every other key reads back what it did before |
| `JsValue.PutExistingKeepsOrder` | src/utils.ts:6 | reassigning an existing key keeps the object's key order |
| `JsValue.PutNewAppends` | src/utils.ts:6 | assigning a new key appends it after all existing keys |
| `JsValue.FromEntries` | src/utils.ts:79-91 | the object built by a run of assignments maps each key to the last value assigned to it |
| `JsValue.FromEntriesHasKey` | src/utils.ts:79-91 | that object has exactly the keys that were assigned |
| `JsValue.FromEntriesDistinct` | src/utils.ts:79-91 | that object never holds a key twice |
| `JsValue.FromDistinctEntries` | src/utils.ts:95-105 | assigning distinct keys keeps them in assignment order with their values |
| `JsValue.LookupAt` | src/utils.ts:82 | with distinct keys, `obj[key]` for a listed key is that entry's value |
| `JsValue.DecimalRoundTrip` | src/utils.ts:22 | the decimal text a number leaf is written as reads back as that number |
| `JsValue.NatToDecimalInjective` | src/utils.ts:22 | different numbers are written as different texts |
| `UriEncoding.HexDigitValue` | src/utils.ts:102 | every upper-case hex digit written reads back as its value |
| `UriEncoding.Utf8` | src/utils.ts:102 | a character becomes one to four UTF-8 octets |
| `UriEncoding.Utf8RoundTrip` | src/utils.ts:102 | those octets announce their own length and decode back to the character |
| `UriEncoding.PercentBytes` | src/utils.ts:102 | each octet becomes exactly three characters `%XX` |
| `UriEncoding.ReadPercentBytes` | src/utils.ts:102 | the escapes written for a run of octets read back as those octets |
| `UriEncoding.DecodeEncodedChar` | src/utils.ts:102 | decoding one encoded character followed by any text gives the character back first |
| `UriEncoding.DecodeEncode` | src/utils.ts:102 | percent-decoding `encodeURIComponent(s)` gives back `s`, for every string |
| `UriEncoding.EncodedIsUrlSafe` | src/utils.ts:102 | the encoding holds only unreserved characters, `%` and upper-case hex digits |
| `UriEncoding.PercentBytesSafe` | src/utils.ts:102 | the escapes hold only `%` and upper-case hex digits |
| `UriEncoding.EncodeKeepsExactlyUnreserved` | src/utils.ts:102 | a string is left unchanged if and only if every character is unreserved |
| `UriEncoding.EncodeLength` | src/utils.ts:102 | the encoding is never shorter than the input |
| `UriEncoding.EncodeConcat` | src/utils.ts:102 | encoding works character by character: the encoding of `a + b` is the encodings joined |
| `UriEncoding.EncodeExample` | src/utils.ts:102 | `a b&c` becomes `a%20b%26c` |
| `UriEncoding.EncodeChar` | src/utils.ts:102 | defines one character's encoding: an unreserved character is kept, any other becomes the `%XX` escapes of its UTF-8 octets |
| `UriEncoding.EncodeURIComponent` | src/utils.ts:102 | defines `encodeURIComponent` as the characters' encodings in order; what it means is stated by `DecodeEncode` and `EncodeKeepsExactlyUnreserved` |
| `TreeTransforms.RebuildObject` | src/utils.ts:78-108 | the shared copy loop returns exactly the recursive rebuild of the tree, including the error a `null` raises |
| `TreeTransforms.Rebuild` | src/utils.ts:78-108 | defines the rebuild both transformers share: keys mapped in key order, object-typed values rebuilt, other values passed to the leaf function, `TypeError` at a null |
| `TreeTransforms.UrlEncoded` | src/utils.ts:94-108 | defines `urlEncodeValues(obj)`: the rebuild keeping keys and encoding leaves |
| `TreeTransforms.UpperCased` | src/utils.ts:78-92 | defines `keysToUpperCase(obj)`: the rebuild upper-casing keys and keeping leaves |
| `TreeTransforms.ToUpperCase` | src/utils.ts:84 | defines `key.toUpperCase()` on ASCII letters |
| `TreeTransforms.UrlEncodeValues` | src/utils.ts:94-108 | `urlEncodeValues(obj)` is the rebuild that keeps keys and encodes leaves |
| `TreeTransforms.KeysToUpperCase` | src/utils.ts:78-92 | `keysToUpperCase(obj)` is the rebuild that upper-cases keys and keeps leaves |
| `TreeTransforms.FailureSticks` | src/utils.ts:81-84 | once a child throws, the whole loop throws that same error |
| `TreeTransforms.RebuildPropertyFails` | src/utils.ts:83-86 | transforming one property value throws if and only if it holds a `null` |
| `TreeTransforms.RebuildFails` | src/utils.ts:78-108 | both transformers throw if and only if the tree holds a `null` somewhere |
| `TreeTransforms.RebuildEntriesFail` | src/utils.ts:81-89 | the loop over the first `n` keys throws if and only if one of those children holds a `null` |
| `TreeTransforms.RebuildEntriesValue` | src/utils.ts:81-89 | without nulls, the `i`-th assignment is the mapped `i`-th key with the transformed `i`-th child |
| `TreeTransforms.NoNullChildren` | src/utils.ts:81-82 | a tree without nulls has children without nulls |
| `TreeTransforms.RebuildNoNull` | src/utils.ts:78-108 | on a tree without nulls the transformers succeed and produce no null |
| `TreeTransforms.PropertyNoNull` | src/utils.ts:83-86 | the same for one property value |
| `TreeTransforms.UrlEncodeValuesMirrors` | src/utils.ts:94-108 | same keys in the same order at every level, arrays become index-keyed objects, every leaf becomes `encodeURIComponent` of its text |
| `TreeTransforms.EncodedPropertyMirrors` | src/utils.ts:99-103 | one property value is mirrored the same way |
| `TreeTransforms.EncodedEntriesMirror` | src/utils.ts:97-105 | the loop over an object's or array's keys mirrors it |
| `TreeTransforms.UrlSafeWellFormed` | src/utils.ts:94-108 | a tree of unreserved strings has distinct keys and no null |
| `TreeTransforms.MirrorsUrlSafe` | src/utils.ts:94-108 | such a tree's only mirror is itself |
| `TreeTransforms.UrlEncodedIdentity` | src/utils.ts:94-108 | `urlEncodeValues` leaves a tree of unreserved strings unchanged |
| `TreeTransforms.ToUpperCaseIdempotent` | src/utils.ts:84 | an upper-cased key is upper-case |
| `TreeTransforms.PutEntries` | src/utils.ts:84-86 | an assignment adds only the assigned entry |
| `TreeTransforms.FromEntriesEntries` | src/utils.ts:79-91 | every entry of the built object is one of the assignments |
| `TreeTransforms.KeysToUpperCaseAllUpper` | src/utils.ts:78-92 | every key of the result, at every depth, is upper-case |
| `TreeTransforms.UpperPropertyAllUpper` | src/utils.ts:83-86 | the same for one property value |
| `TreeTransforms.UpperEntriesAllUpper` | src/utils.ts:81-89 | the same for the loop over an object's keys |
| `TreeTransforms.LastValueAt` | src/utils.ts:84-86 | the last assignment to a key is the value it keeps |
| `TreeTransforms.UpperEntries` | src/utils.ts:81-89 | the `i`-th assignment is the upper-cased `i`-th key with the transformed `i`-th child |
| `TreeTransforms.KeysToUpperCaseKeys` | src/utils.ts:78-92 | the result's keys are distinct and are exactly the upper-cased input keys |
| `TreeTransforms.KeysToUpperCaseLastWins` | src/utils.ts:81-89 | when keys collide after upper-casing, the later key's value wins, and scalar values are unchanged |
| `Template.SkipSpaces` | src/utils.ts:19-20 | a run of `\s` ends on a non-space or at the end of the text |
| `Template.CloseAfter` | src/utils.ts:19-20 | a found closing delimiter ends inside the text, after the delimiter |
| `Template.MatchFrom` | src/utils.ts:19-20 | a placeholder match ends inside the text |
| `Template.MatchAtStart` | src/utils.ts:19-20 | a placeholder match covers at least its opening delimiter |
| `Template.ReplaceAll` | src/utils.ts:19-22 | defines `s.replace(/open\s*?PATH\s*?close/g, text)`: scanning left to right, each match is replaced and the scan resumes after it |
| `Template.ReplaceLeaf` | src/utils.ts:22 | defines one leaf's step: the `{{ }}` replacement, then the `${ }` one on its result |
| `Template.Join` | src/utils.ts:18 | defines the dotted path `[...breadcrumb, key].join('.')` |
| `Template.LeavesOf` | src/utils.ts:9-18 | defines the leaves `traverse` visits: depth first in key order, arrays skipped, each scalar with its dotted path and its text |
| `Template.Apply` | src/utils.ts:9-23 | defines the walk's effect on the string: each visited leaf's step applied to the previous result |
| `Template.Substitute` | src/utils.ts:5-29 | defines what `substituteTemplateLiterals` returns: `@ENCODED` added, then every leaf of that tree applied in order, or the `TypeError` |
| `Template.WithEncoded` | src/utils.ts:6 | a successful `@ENCODED` assignment leaves an object |
| `Template.Traverse` | src/utils.ts:8-26 | the walk skips arrays, descends into objects and replaces at scalars: it equals substituting the leaves in depth-first key order |
| `Template.ApplyAppend` | src/utils.ts:9-23 | substituting two runs of leaves is substituting the first run, then the second |
| `Template.EncodedTreeNoNull` | src/utils.ts:6-8 | once `@ENCODED` is written, the tree holds no null, so the walk cannot throw |
| `Template.ConstantsTree.constructor` | src/utils.ts:5 | the tree holds the object it is given |
| `Template.ConstantsTree.SubstituteTemplateLiterals` | src/utils.ts:5-29 | returns the substituted text or the error, and the tree gains `@ENCODED` exactly when encoding succeeds |
| `TemplateLemmas.ReplaceAllInert` | src/utils.ts:22 | a global replace with no match leaves the text unchanged |
| `TemplateLemmas.NoOpenInert` | src/utils.ts:19-20 | a text without the opening delimiter has no match |
| `TemplateLemmas.MatchFreePrefixKept` | src/utils.ts:19-22 | text at none of whose positions a match starts is copied through by a global replace, and the scan goes on right after it |
| `TemplateLemmas.PrefixKept` | src/utils.ts:22 | text without the opener's first character is copied through, and the scan goes on after it |
| `TemplateLemmas.SkipSpacesTo` | src/utils.ts:19-20 | skipping whitespace stops at the first non-space |
| `TemplateLemmas.MatchFromSkips` | src/utils.ts:19-20 | the lazy `\s*?` gives up whitespace characters until the path appears |
| `TemplateLemmas.MatchAt` | src/utils.ts:19-20 | whitespace, the path, whitespace and the closing delimiter form a match that ends right after the delimiter, with or without whitespace on either side |
| `TemplateLemmas.ReplacePlaceholder` | src/utils.ts:18-22 | `open`, whitespace, the path, whitespace, `close` is replaced by the leaf's text, and the scan resumes after it |
| `TemplateLemmas.PlaceholderAfterMatchFree` | src/utils.ts:18-22 | in one pass a placeholder is replaced wherever it stands, not only at the start, whenever no match starts in the text before it; the text before it is kept and the scan resumes after it |
| `TemplateLemmas.OtherNameNoMatch` | src/utils.ts:19-20 | no placeholder for the path starts inside `{{q}}` for another name `q`, including a name that extends the path (`{{ab}}` against `a`), whatever follows it |
| `TemplateLemmas.OtherNameNoDollar` | src/utils.ts:20 | `{{q}}` holds no `${` opener |
| `TemplateLemmas.UnresolvedPlaceholderKept` | src/utils.ts:18-22 | a `{{q}}` for any other name (`q != path`, `q` free of braces and `$`; when `q` starts with the path, also free of whitespace) is copied through by both replacements, whatever text follows it, so `{{channel_id}}` survives the pass for `channel` |
| `TemplateLemmas.ApplyInert` | src/utils.ts:9-23 | leaves with no placeholder in the text leave it unchanged |
| `TemplateLemmas.SubstituteFails` | src/utils.ts:5-29 | substitution throws if and only if the constants are not an object or hold a `null` |
| `TemplateLemmas.SubstituteVerbatim` | src/utils.ts:8-28 | a text in which no leaf's placeholder matches anywhere comes back unchanged |
| `TemplateLemmas.SubstituteWithoutOpeners` | src/utils.ts:5-29 | a text with no `{{` and no `${` comes back unchanged, for any constants without nulls |
| `TemplateLemmas.FindKey` | src/utils.ts:10 | finds the first property with a key, or shows there is none |
| `TemplateLemmas.FindDistinctKey` | src/utils.ts:10 | with distinct keys, the property found is the one listed |
| `TemplateLemmas.FieldLeavesMember` | src/utils.ts:9-23 | every leaf of an object comes from one of its properties |
| `TemplateLemmas.FieldLeavesContains` | src/utils.ts:9-23 | every leaf of a property is a leaf of the object |
| `TemplateLemmas.LeavesResolve` | src/utils.ts:8-18 | every leaf the walk visits is a scalar at its dotted path, and its text is that scalar's text |
| `TemplateLemmas.ResolvedLeafVisited` | src/utils.ts:8-18 | every scalar reachable through objects is visited |
| `TemplateLemmas.LeavesAreResolvedScalars` | src/utils.ts:8-18 | the walk visits a leaf at path `p` if and only if `p` leads through objects to a scalar |
| `TemplateLemmas.EncodedBranch` | src/utils.ts:6 | `@ENCODED` becomes `urlEncodeValues` of the tree as it was, and every other key keeps its value |
| `TemplateLemmas.EncodedBranchPlace` | src/utils.ts:6 | an existing `@ENCODED` keeps its place; a new one is appended last |
| `TemplateExamples.PlainUnchanged` | src/utils.ts:22 | a leaf pass leaves text without placeholders unchanged |
| `TemplateExamples.WholePlaceholder` | src/utils.ts:19-22 | `{{path}}` alone becomes the leaf's text |
| `TemplateExamples.WelcomeExample` | src/utils.ts:5-29 | `Welcome to {{server.name}}` with `server.name = Acme` becomes `Welcome to Acme` |
| `TemplateExamples.WelcomeTree` | src/utils.ts:6 | the tree gains `@ENCODED` holding its encoded copy |
| `TemplateExamples.WelcomeLeaves` | src/utils.ts:8-18 | the leaves are visited in key order, `@ENCODED` last |
| `TemplateExamples.PlaceholderAfterPlain` | src/utils.ts:18-22 | a placeholder after plain text is replaced and the text kept |
| `TemplateExamples.WelcomeText` | src/utils.ts:9-23 | the two leaf passes produce `Welcome to Acme` |
| `TemplateExamples.NoCharNoOccurrence` | src/utils.ts:19-20 | a text without a delimiter's first character does not contain the delimiter |
| `TemplateExamples.OtherPlaceholderInert` | src/utils.ts:19-22 | neither form of the placeholder for `path` starts in `{{q}}` for another name `q`, names extending `path` included |
| `TemplateExamples.ResolvedBesideUnresolved` | src/utils.ts:18-22 | for any leaf `a` and any other simple name `q`, `a`'s extensions such as `channel_id` for `channel` included: in `{{a}}`, plain text, `{{q}}` the leaf's placeholder becomes its text and `{{q}}` is kept as written |
| `TemplateExamples.ArrayExample` | src/utils.ts:11 | `{a: [1, 2]}` leaves `{{a.0}}` untouched |
| `TemplateExamples.ArrayTree` | src/utils.ts:6 | the encoded copy turns the array into an index-keyed object |
| `TemplateExamples.ArrayLeaves` | src/utils.ts:11-18 | the array itself yields no leaf; only its encoded copy does |
| `TemplateExamples.ArrayText` | src/utils.ts:9-23 | those leaves leave `{{a.0}}` untouched |
| `TemplateExamples.WholeLeaf` | src/utils.ts:22 | both passes together turn `{{path}}` into the text |
| `TemplateExamples.SequentialExample` | src/utils.ts:9-23 | for any simple names `a` and `b`, when leaf `a` holds `{{b}}` and leaf `b` comes later, `{{a}}` becomes `b`'s text: text inserted by an earlier leaf is rewritten by a later one |
| `TemplateExamples.SequentialOrderMatters` | src/utils.ts:9-23 | with `b`'s leaf first and `a` any other simple name, `{{a}}` becomes `{{b}}` and stays so: text inserted by a later leaf is not rewritten by an earlier one |
| `ContextConstants.DateBranch` | src/utils.ts:34-48 | defines the `@DATE` object from the clock's ten readings |
| `ContextConstants.UserBranch` | src/utils.ts:52-57 | defines the `@USER` object: id, username, discriminator as `TAG`, avatar URL |
| `ContextConstants.BaseFields` | src/utils.ts:32-58 | defines the constants before the option loop: `@DATE`, then `@USER` when there is a user |
| `ContextConstants.OptionValue` | src/utils.ts:67-71 | defines the value stored for an option: an object-typed value through `keysToUpperCase`, any other as given |
| `ContextConstants.OptionAssignments` | src/utils.ts:63-72 | defines the option loop's assignments into `@OPTIONS`, subcommands and groups skipped, stopping at the first throw |
| `ContextConstants.ConstantsFromObject` | src/utils.ts:31-76 | defines `constantsFromObject`: the base fields, then `@OPTIONS` built from the assignments when there is at least one |
| `ContextConstants.OptionValueFails` | src/utils.ts:67-71 | storing an option value throws if and only if it holds a `null` |
| `ContextConstants.OptionAssignmentsFail` | src/utils.ts:63-72 | the option loop throws if and only if a value option holds a `null` |
| `ContextConstants.OptionAssignmentsKeys` | src/utils.ts:63-72 | the keys assigned are exactly the upper-cased names of the options that are not subcommands |
| `ContextConstants.OptionAssignmentsLastWins` | src/utils.ts:63-72 | among options with the same upper-cased name, the last one's value is assigned last |
| `ContextConstants.OptionAssignmentsEmpty` | src/utils.ts:64-65 | nothing is assigned if and only if every option is a subcommand or group |
| `ContextConstants.OptionAssignmentsUpper` | src/utils.ts:67-71 | every assigned key is upper-case, and every assigned value has upper-case keys at every depth and no null |
| `ContextConstants.BaseFieldsFacts` | src/utils.ts:33-58 | the object starts with `@DATE`, then `@USER` when there is a user, with distinct keys and no null |
| `ContextConstants.ConstantsFromObjectFields` | src/utils.ts:60-73 | `@OPTIONS` is appended after the base exactly when there is a value option |
| `ContextConstants.ConstantsFromObjectFails` | src/utils.ts:31-76 | `constantsFromObject` throws if and only if a value option holds a `null` |
| `ContextConstants.ConstantsFromObjectKeys` | src/utils.ts:31-76 | the top-level keys are `@DATE`, then `@USER` if there is a user, then `@OPTIONS` if there is a value option, and they are distinct |
| `ContextConstants.DateBranchKeys` | src/utils.ts:34-48 | the date branch's keys are exactly `TIMESTAMP` to `SECONDS`, distinct, in source order |
| `ContextConstants.DateBranchTexts` | src/utils.ts:35-41 | `TIMESTAMP`, `DATE_STRING`, `TIME_STRING`, `JSON_STRING` and `DAY` read back the clock's time, texts and weekday |
| `ContextConstants.DateBranchNumbers` | src/utils.ts:42-47 | `MONTH`, `YEAR`, `HOURS`, `MINUTES` and `SECONDS` read back the clock's readings |
| `ContextConstants.DateBranchFacts` | src/utils.ts:33-47 | the date branch holds exactly the ten distinct keys `TIMESTAMP` to `SECONDS`, in that order, and each of the ten reads back its own clock reading |
| `ContextConstants.ConstantsFromObjectDate` | src/utils.ts:32-49 | `@DATE` is present for every event and holds the clock's date branch |
| `ContextConstants.ConstantsFromObjectUser` | src/utils.ts:51-58 | `@USER` is present if and only if there is a user, and then holds its `ID`, `USERNAME`, `TAG` and `AVATAR` |
| `ContextConstants.ConstantsFromObjectOptions` | src/utils.ts:60-73 | `@OPTIONS` is present if and only if there is a value option; its keys are exactly the upper-cased option names, upper-case at every depth |
| `ContextConstants.ConstantsFromObjectOptionValue` | src/utils.ts:63-72 | an option's entry holds the last value option of that name: a scalar as given, an object through `keysToUpperCase` |
| `ContextConstants.ConstantsFromObjectNoNull` | src/utils.ts:31-76 | the constants hold no null, so substituting with them cannot throw |
| `ContextConstants.CountOptionExample` | src/utils.ts:60-72 | a subcommand is skipped and the option `count: 5` appears as `@OPTIONS.COUNT = 5` |
| `Permissions.HasAny` | src/utils.ts:121 | `roles.hasAny(...ids)` holds if and only if some listed id is one of the roles |
| `Permissions.HasPermission` | src/utils.ts:110-129 | no rule allows; a rule with no readable roles allows only when it lists nothing; a blacklist allows if and only if no role is on it; a lone whitelist allows if and only if some role is on it; a rule with no lists allows |
| `Permissions.BlacklistIgnoresWhitelist` | src/utils.ts:120-122 | once a blacklist is present, the whitelist has no effect |
| `Permissions.EmptyWhitelistDeniesAll` | src/utils.ts:123-125 | an empty whitelist without a blacklist denies everyone |
| `Permissions.EmptyBlacklistAllowsMembers` | src/utils.ts:113-122 | an empty blacklist allows exactly the members whose roles can be read |
| `Permissions.RolesMonotone` | src/utils.ts:120-126 | gaining roles never loses a whitelist's permission; losing roles never loses a blacklist's |
| `Permissions.NoRolesIsLeastPermitted` | src/utils.ts:113-116 | a member without readable roles is never allowed where one with roles would be refused |
| `CommandRegistry.NameOrder` | src/index.ts:228-236 | defines the key order of `hashSet`: the names of named commands in order of first occurrence |
| `CommandRegistry.Registered` | src/index.ts:228-241 | defines the body sent, `Object.values(hashSet)`: for each name in that order, the last command carrying it |
| `CommandRegistry.LastNamed` | src/index.ts:230-231 | the last command with a name is a named input command carrying that name |
| `CommandRegistry.ValuesFor` | src/index.ts:239-241 | lists, for each name in turn, the last command of that name |
| `CommandRegistry.NameOrderFacts` | src/index.ts:228-236 | the record's keys are duplicate-free and are exactly the names some command carries |
| `CommandRegistry.Deduplicate` | src/index.ts:228-241 | the loop over a map and `Object.values` send exactly the specified body: for each name in first-occurrence order, the last command with that name |
| `CommandRegistry.RegisteredDistinct` | src/index.ts:230-231 | no command without a name is sent, and no two sent commands share a name |
| `CommandRegistry.RegisteredNames` | src/index.ts:228-232 | a name is sent if and only if some input command carries it, and only input commands are sent |
| `CommandRegistry.LastNamedFound` | src/index.ts:230-231 | every named command leaves a command of its name in the record |
| `CommandRegistry.LastNamedIsLast` | src/index.ts:231 | the last command with a name is the one the record keeps |
| `CommandRegistry.RegisteredLastWins` | src/index.ts:231 | for a repeated name, the command sent is the last one with that name, and it is the only one sent under that name |
| `CommandRegistry.LocalOverridesLive` | src/index.ts:166-169 | a local command is sent instead of any live command of the same name |
| `CommandRegistry.RegisteredEmpty` | src/index.ts:172-174 | an empty command list sends an empty body |
| `CommandRegistry.OverrideExample` | src/index.ts:166-169 | for any two distinct names `a` and `b`: live `a`, an unnamed command, live `b` and local `a` register as local `a` then live `b` |
| `BotHandler.DiscordBotHandler.constructor` | src/index.ts:34-35 | the handler starts with constants `{}`, config `{}` and nothing registered |
| `BotHandler.DiscordBotHandler.RegisterCommands` | src/index.ts:227-243 | one registration is sent, to the dev guild in dev mode and the main guild otherwise, with the de-duplicated body; nothing else changes |
| `BotHandler.DiscordBotHandler.UnloadCommands` | src/index.ts:172-174 | an empty command list is registered to the target guild |
| `BotHandler.DiscordBotHandler.LoadConstants` | src/index.ts:176-198 | the constants become a fresh `{}`, replaced by the parsed file when it exists, is read and parses; the file is never substituted |
| `BotHandler.DiscordBotHandler.LoadConfig` | src/index.ts:200-225 | the config is the parsed, substituted file (absent when the document loads as `undefined` or `null`), or `{}` when it is missing or reading, substituting or parsing throws; the constants gain `@ENCODED` when substitution ran |
| `BotHandler.DiscordBotHandler.LoadCommands` | src/index.ts:159-170 | the config is substituted with the constants just loaded, and live commands then local ones are registered once |
| `BotHandler.DiscordBotHandler.HandleInteraction` | src/index.ts:88-125 | with an absent config, reading the rules throws and the `catch` runs; a refused slash command gets the reply and an autocomplete request nothing, before any resolution; otherwise the local class is used when found, and only then the live one |
| `BotHandler.LoadedConstants` | src/index.ts:176-198 | defines `liveConstants` after `loadConstants`: the parsed file, or `{}` when it is missing or reading or parsing throws |
| `BotHandler.LoadedConfig` | src/index.ts:200-225 | defines `liveConfig` after `loadConfig`: the substituted and parsed file (absent for an empty document), or `{}` when it is missing or reading, substituting or parsing throws |
| `BotHandler.ConstantsAfterConfig` | src/index.ts:213-218 | defines the constants tree after `loadConfig`: with `@ENCODED` written into it when substitution got that far |
| `BotHandler.RuleKey` | src/index.ts:89 | defines `path.join(commandName, subcommand ?? '')` with the POSIX separator |
| `BotHandler.ConfigWithoutConstants` | src/index.ts:213-219 | with constants `{}` the config file is parsed as written |
| `BotHandler.ConfigEmptyOnBadConstants` | src/index.ts:213-224 | constants that are not an object or hold a `null` leave the config at `{}` |
| `BotHandler.ConfigOnlyFromParsedText` | src/index.ts:200-225 | a config other than `{}`, the absent one included, comes only from an existing, readable file whose substituted text parses to it |
| `BotHandler.AbsentConfigFromEmptyDocument` | src/index.ts:200-225 | the config is absent if and only if the file exists, substitution succeeds and the substituted document loads as `undefined` or `null` |
| `BotHandler.SeparatedNamesEqual` | src/index.ts:89 | two `name/sub` keys with separator-free names are equal only for equal names and subcommands |
| `BotHandler.RuleKeySeparator` | src/index.ts:89 | a rule key holds `/` if and only if it names a subcommand |
| `BotHandler.RuleKeyInjective` | src/index.ts:89-90 | a rule key names exactly one command and subcommand, so a rule for a bare command does not apply to its subcommands |

## Left out

- **I/O.**
  - Downloading and extracting the live repository, the `fs` existence checks and reads, and YAML parsing are outside the model.
  - A file is modelled as `Missing`, `Unreadable` or its text. A parser is a function parameter that returns a value or an error.
- **Discord.**
  - The REST upsert is recorded as an entry in `registrations`; nothing is sent.
  - The gateway wiring (`messageCreate`, `threadUpdate`, `guildMemberAdd`, `error`), `logInternalError`, `sendWelcomeMessage` and the error reply of the handler's `catch` are network and UI plumbing. The handler's `catch` is modelled only as the outcome `Thrown`. The welcome flow's own throw on an absent config (src/index.ts:53) is left out with the flow.
- **Command and interaction managers.**
  - `resolveLocalCommandClass` and `resolveLiveCommandClass` are function parameters.
  - `getLiveCommands`, `getLocalCommands` and `loadTriggers` are outside the model: the command lists are inputs, and trigger loading is left out.
  - Running `execute` or `handleAutocomplete`, and whether a class has them, is foreign code. The model stops at the class it dispatches to.
  - Button and select-menu interactions are `Ignored`.
- **Clock and avatar.** The ten `Date` readings and `displayAvatarURL()` are inputs.
- **JavaScript values.**
  - Numbers are integers. Fractions, exponent notation, `NaN` and their text forms are left out.
  - There are no `undefined`, functions, symbols or bigints among the values of a tree.
  - A constants document that loads as `undefined` is represented by `null`: `substituteTemplateLiterals` throws on either in the same place.
  - A config document that loads as `undefined` or `null` is the absent config (`None`); the two are not told apart, since both throw at the same read.
- **`__proto__` keys.** Assigning to the key `__proto__` of a plain object sets its prototype, so that key is missing from `Object.keys` and `Object.values`. `CommandRegistry.Deduplicate` keeps a command named `__proto__` (src/index.ts:231), which the code never registers. `TreeTransforms.RebuildObject` keeps a property named `__proto__` (src/utils.ts:99-103), which `urlEncodeValues` and `keysToUpperCase` drop. The model treats it as an ordinary key.
- **Integer-like keys.** `Object.keys` and `Object.values` list integer-like keys first in JavaScript. The model keeps insertion order for every key, which matches JavaScript only for non-numeric keys and command names.
- **Regular expressions.**
  - The path is spliced into the regular expression unescaped, so `.` in a path matches any character and other metacharacters change the pattern. An invalid pattern throws. The model matches the path literally.
  - `$&`, `$1` and `$$` in a leaf's text are interpreted by `String.replace`. The model inserts the text literally.
- **Case and text encoding.**
  - `toUpperCase` is modelled for ASCII letters only; full Unicode case mapping, such as `ß` to `SS`, is left out.
  - `encodeURIComponent`'s `URIError` on a lone surrogate cannot arise, because a Dafny `char` is a Unicode scalar value.
- **Array root.** An array is accepted as the constants root by the code: `@ENCODED` is set as a property of the array and the array is walked. The model treats a non-object root, arrays included, as a `TypeError`.
- **Path joining.** `path.join` normalises `.` and `..` segments, repeated separators and an empty name. The rule key is modelled for command names without `/` and dot segments, which Discord command names satisfy.
- BotHandler.RuleKey: joins with `/`, the POSIX separator. On Windows `path.join` uses `\`, so there a subcommand's rule is looked up under `command\sub`; the model, `RuleKeySeparator` and `RuleKeyInjective` hold for POSIX hosts only.
- **Permission lists that are not arrays.** A list that is present but is not an array of role ids (for example a YAML string) is not modelled: lists are sequences of role ids.
- **Unused config fields.** Of the live config only the permission rules are modelled; the verification-module settings serve the welcome flow, which is left out.
- **Async interleaving** across `await` points is not modelled: every operation runs to completion.
- TemplateLemmas.ReplacePlaceholder: one pass is shown to replace a placeholder that stands at the scan point, and `TemplateLemmas.PlaceholderAfterMatchFree` extends that to one preceded by text in which no match starts. Applying these one after another covers every placeholder the scan meets, but no single lemma states "every placeholder of the text" for a pass. For the whole walk that claim does not hold in general, so no lemma states it. A leaf's text can itself hold placeholders for later leaves. A leaf whose dotted path holds `{{` can match across a placeholder of the input and swallow it: a leaf with key `y{{x` turns `{{y{{x}}` into its text, so when it comes before a leaf `x` the `{{x}}` in the input is never replaced.
- TemplateLemmas.SubstituteVerbatim: states only that a text with no match for any leaf comes back unchanged. That a placeholder for another name, one extending a leaf's path included, is kept by a leaf's pass is stated per pass (`TemplateLemmas.UnresolvedPlaceholderKept`, `TemplateExamples.ResolvedBesideUnresolved`), not for the whole walk, for the reason given in the line above: a later leaf's text or path can reach into it.
- TemplateLemmas.UnresolvedPlaceholderKept: a name that starts with the path and also holds whitespace or `}` (`{{a b}}` against `a`) is not covered; some of these are matches (`{{a }}` is one), and the others are left unstated.
