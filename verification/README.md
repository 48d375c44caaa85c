# build-docs annotation parsing, in Dafny

This project models the annotation-to-schema parsing of build-docs. The tag values of an
already tokenized doc comment (`@param`, `@returns`, `@throws`, `@secret` and the comment's
description lines) are turned into JSON-Schema-flavoured records. The project models both
generations of that logic as they are written, without reconciling them:

- **Monolithic `extract`** (`index.js`):
  - gathers tags across comment blocks;
  - parses every `@param` with its own grammar, then folds `root.sub` and `root[].sub` params into
    the `properties` (or `items.properties`) of their root, in place;
  - shapes `@throws` with a greedy type capture;
  - joins the description lines.
- **Per-tag modules** (`lib/*.js`):
  - `lib/params.js` parses `@param` values with an optional default and a `[\s-]+` separator,
    types them through `setType`, and rejects object params;
  - `lib/returns.js` keeps the first `@returns`;
  - `lib/throws.js` uses a lazy type capture;
  - `lib/secrets.js`, `lib/description.js` and `lib/full-description.js` handle the remaining tags.

Each fixed regular expression is written out as a scanner over `seq<char>`. A greedy run is
a scan for the longest run. Backtracking over `(.*)` or `(.*?)` is a search for the last
(greedy) or first (lazy) position after which the rest of the expression matches.

For each grammar the project proves:

- **Soundness:** a declarative predicate lists every decomposition the expression admits, and
  the matcher's result is one of them.
- **Completeness and priority:** whenever a decomposition exists, the matcher finds one, and it
  picks the one backtracking picks.
- **Round trip:** a rendered value reads back as its pieces.

Two parts follow the source's in-place updates and are proved against pure specification
functions:

- **`setType`** writes into the record its caller passes. It is a class `ParamDoc` updated in place by a
  method `SetType`, proved against `SetTypeSpec`.
- **The nested-param pass of `index.js`** mutates shared root records while mapping. It is a
  method over an array of records, proved against `NestSpec`. `NestSpec`'s own properties are
  proved separately:
  - which param throws;
  - which records remain at top level: the folded record of each param that is not nested, in
    input order, and nothing else (`NestReturnsAt`, `NestReturnsFrom`);
  - which properties each root ends up with (`PropertiesAt`, about those same folded records).

The file `index.js` repeats `getType` of `lib/get-type.js` letter for letter (index.js:23-30);
it is modelled once, as `GetType.GetType`.

The model follows the code as written; in particular:

- In `index.js` a nested param's root is the first param with that title anywhere in the list,
  also one written after the child. `{Object}` params are accepted and nothing is validated.
- `lib/params.js` rejects every `object` or `object[]` param and never folds paths. Children
  do not make an object param acceptable.
- A `@throws` value with neither type nor text still yields a record with both keys
  `undefined`, and `@error` tags are not gathered.
- `lib/returns.js` normalises the type with `getType` alone: no lower-casing beyond `Object`
  and no validation.

## Model

| member | source | states |
|---|---|---|
| GetType.GetType | lib/get-type.js:1-8 | the result is `object` exactly for `Object` and `object`; any other token is returned as it is |
| GetType.GetTypeIdempotent | lib/get-type.js:1-8 | normalising twice equals normalising once |
| GetType.GetTypeOnlyObject | lib/get-type.js:3-7 | the token changes exactly when it is `Object` (`String`, `OBJECT` are kept) |
| GetType.GetTypeKeepsArray | index.js:53-54 | the array test gives the same answer on the token before and after `getType` |
| GetType.TypeOf | index.js:49-59 | a token ending in `[]` gives `array` with items `getType` of the stripped token; otherwise `getType` of the token, no items |
| GetType.TypeOfArray | lib/returns.js:16-18 | `T[]` is an array of `getType(T)` for every `T` |
| Strings.EndsWithBracketsIff | lib/get-type.js:10 | the array test holds exactly of strings of the form `u + "[]"` |
| Strings.StripBrackets | lib/set-type.js:20 | stripping `[]` and adding it back gives the token; a token without `[]` is unchanged |
| Strings.Join | index.js:46 | joining no strings gives `""`, joining one gives it unchanged |
| Strings.JoinAppend | index.js:46 | joining a concatenation puts exactly one separator between the two joins |
| Strings.SplitJoin | lib/description.js:7 | a join with a separator no element contains is undone by splitting at it, so the joined lines can be recovered |
| Strings.NonEmpty | lib/full-description.js:3 | `filter(Boolean)` keeps only non-empty strings and never grows the list |
| Strings.NonEmptyMember | lib/full-description.js:3 | a string survives the filter exactly when it was in the list and is non-empty |
| Strings.NonEmptyAppend | lib/full-description.js:3 | filtering distributes over concatenation |
| Strings.FlattenAppend | index.js:33-35 | the `concat` reduction (`Flatten`) distributes over concatenation of block lists |
| Strings.FlattenHas | index.js:33-35 | the `concat` reduction keeps every element of every list |
| Strings.ToLower | lib/set-type.js:9 | lower-casing keeps the length and maps each character by itself |
| Strings.ToLowerIdempotent | lib/set-type.js:9 | lower-casing twice is lower-casing once |
| Strings.ToLowerAppend | lib/set-type.js:9 | lower-casing distributes over concatenation |
| Strings.SliceInner | lib/params.js:19 | `slice(1, -1)` drops exactly the first and last character (empty for one character) |
| Base.Collect | lib/params.js:12-25 | a `map` whose callback may throw: on success, one value per element |
| Base.CollectSuccess | lib/secrets.js:6-9 | the map returns exactly when no element throws, and then keeps every value in order |
| Base.CollectFirstError | lib/params.js:13-15 | when elements throw, the first one's error is what the map throws |
| Base.CollectFailureSticks | lib/params.js:12-25 | once a prefix throws, the whole map throws the same error |
| Base.CollectStep | lib/params.js:12-25 | one more element either extends the values or replaces the outcome by its error |
| Scan.RunEnd | lib/params.js:7 | a greedy run stops at the end or at the first character outside its class |
| Scan.RunEndUnique | lib/secrets.js:3 | a run that cannot be extended is the one the greedy scan finds |
| Scan.RunThenRest | lib/returns.js:4 | `\s+([\s\S]+)$`: the run, when present, is non-empty and leaves a non-empty rest |
| Scan.RunThenRestSpec | lib/returns.js:4 | the run found is all in its class and is the longest run that leaves a rest |
| Scan.LastTrue | index.js:10 | greedy `(.*)`: the last position at or before the bound where the rest matches, and none later |
| Scan.FirstTrue | lib/throws.js:5 | lazy `(.*?)`: the first position where the rest matches, and none earlier |
| Scan.PathEnd | index.js:10 | the greedy path scan `\w+(?:(?:\[\])*\.\w+)*` stays inside the string |
| Scan.PathEndRestrict | index.js:10 | what the path scan consumes is a whole path |
| Scan.PathUnique | index.js:10 | any path a match can use, followed by a character that cannot continue it, is the greedy one |
| Scan.PathEndEmbed | index.js:10 | a path written in a string and followed by a stop character is scanned exactly |
| Scan.PathChars | index.js:10 | a path starts with a word character and holds only word characters, brackets and dots |
| Scan.TypeThenRest | index.js:10 | a `{type}` without line terminators at the start closes right after it, with no later close in a `}`-free rest |
| SetType.LowerType | lib/set-type.js:3-10 | the file's `getType` equals plain lower-casing |
| SetType.Normalize | lib/set-type.js:15-20 | the token ends in `[]` exactly when items are written; then the type is `array` and items plus `[]` is the lower-cased token, otherwise the type is the lower-cased token |
| SetType.ValidateType | lib/set-type.js:36-40 | no error exactly for the seven vocabulary names; otherwise `Invalid type` naming the rejected name |
| SetType.CastExample | lib/set-type.js:42-51 | the literal is kept exactly for types other than number, boolean and array; boolean gives true exactly for `true`; number and array keep the literal opaquely |
| SetType.CastIfTruthy | lib/set-type.js:27-29 | an absent or empty example is left alone, a non-empty one is cast with the given type |
| SetType.SetTypeSpec | lib/set-type.js:14-32 | fails exactly when the checked name (items type for arrays) is outside the vocabulary; otherwise title and description pass through, type and items are the normalised ones, and the example is cast with the normalised type |
| SetType.ParamDoc.constructor | lib/params.js:15-23 | the record holds title and description, the example if the parser found one, and no type yet |
| SetType.ParamDoc.Snapshot | lib/set-type.js:31 | the record's fields, read as a value |
| SetType.SetType | lib/set-type.js:14-32 | in place: writes the normalised type (and items for arrays), returns the validation error; on error the example is untouched, otherwise it is cast with the normalised type; title and description unchanged |
| SetType.Typed | lib/params.js:15-25 | running `SetType` on a fresh record gives exactly `SetTypeSpec` |
| SetType.AcceptedTypes | lib/set-type.js:1 | `setType` accepts exactly the vocabulary names and the vocabulary names followed by one `[]`, each in any ASCII case |
| SetType.NestedArrayRejected | lib/set-type.js:18-21 | `u[][]` fails with `Invalid type` naming the lower-cased `u[]` |
| SetType.NotInVocabulary | lib/set-type.js:1 | no vocabulary name ends in `]` |
| SetType.LowerArray | lib/set-type.js:18-20 | lower-casing leaves the `[]` of a `T[]` token in place |
| SetType.ObjectSpecialCaseRedundant | lib/set-type.js:5-9 | the `Object` special case gives what lower-casing gives |
| SetType.ArrayExampleUsesArrayBranch | lib/set-type.js:27-29 | an array param's example goes through the `array` (JSON) cast |
| SetType.EmptyExampleKept | lib/set-type.js:27 | an empty example is never cast |
| SetType.BooleanExample | lib/set-type.js:45-46 | a boolean example is true exactly when the literal is `true` |
| Params.LastQuote | lib/params.js:7 | `"[\s\S]+"`: the closing quote is the last one at or before the bound after which the separator and description can follow |
| Params.LastBare | lib/params.js:7 | `[\S]+`: the bare value ends at the last position in range where the separator can follow |
| Params.AfterEquals | lib/params.js:7 | the default alternatives after `=` keep the head and always record a default |
| Params.AfterEqualsSound | lib/params.js:7 | after a head the expression admits, the default read completes a decomposition the expression admits |
| Params.QuotedSound | lib/params.js:7 | a quote that can close `"…"` gives an admitted decomposition with a quoted default |
| Params.BareSound | lib/params.js:7 | a bare value followed by a separator gives an admitted decomposition |
| Params.BlankSound | lib/params.js:7 | `=` directly followed by the separator gives an admitted decomposition with an empty default |
| Params.Tail | lib/params.js:7 | the split after a type closing at `k` keeps that `k` |
| Params.TailSound | lib/params.js:7 | any tail found is a decomposition the expression admits |
| Params.TypeFlags | lib/params.js:7 | flag `k` is set exactly when the type can close at `k` with the rest matching |
| Params.LocateSound | lib/params.js:7 | the split the matcher locates is one the expression admits |
| Params.Captures | lib/params.js:13-15 | on an admitted split, the title is a path and the description is non-empty |
| Params.MatchParam | lib/params.js:13 | a match has a path title and a non-empty description |
| Params.SpacesUnique | lib/params.js:7 | in every admitted split the `\s+` after the type ends where the path starts |
| Params.SplitEndsPath | lib/params.js:7 | in every admitted split the path is followed by a character that cannot continue it |
| Params.HeadUnique | lib/params.js:7 | the spaces and path of every admitted split are the ones the greedy scans find |
| Params.AfterEqualsComplete | lib/params.js:7 | with `=` after the path the matcher always reads a default, and a value whenever some split has one |
| Params.NoDefaultComplete | lib/params.js:7 | without `=` after the path, every admitted split has no default and the separator follows the path |
| Params.TailComplete | lib/params.js:7 | for the type closing at a split's `k` the matcher finds the same path, and a value when the split has one |
| Params.LocateComplete | lib/params.js:7 | whenever the expression can match, the matcher matches, with the type running to the last `}` any match can use |
| Params.LocatePriority | lib/params.js:7 | within the chosen type, the path is the only one possible and a default is captured whenever one can be |
| Params.NoBraceNoMatch | lib/params.js:7 | a value not opening with `{` never matches |
| Params.LocateLast | lib/params.js:7 | a type that can close at `k` with no `}` after it is the one chosen |
| Params.RenderRoundTrip | lib/params.js:2-7 | a rendered `{type} path[=default]<sep>description` reads back as its type, path, group 3 and description |
| Params.ExampleOf | lib/params.js:16-23 | no example for a missing or empty capture; an unquoted one is kept; a quoted one loses its first and last character |
| Params.ExampleOfCapture | lib/params.js:16-23 | a rendered default's example is the text of the quoted or bare value |
| Params.DefaultValue | lib/params.js:16 | there is a value exactly for quoted and bare defaults |
| Params.ParseParam | lib/params.js:13-25 | a value that does not match throws; otherwise the record's title and description are the captures |
| Params.ParseParamTyping | lib/params.js:13-25 | a matching value throws `Invalid type` exactly when the checked type name is outside the vocabulary; otherwise the record's type and items are the normalised captured type, and its `exampleData` is the captured default cast by that type |
| Params.ParseRendered | lib/params.js:13-25 | a rendered value parses to `setType` of its type, path, description and default text |
| Params.SeparatorIrrelevant | lib/params.js:2-3 | `- ` and white-space separators give the same record |
| Params.QuotesIrrelevant | lib/params.js:18-22 | `a="text"` and `a=text` give the same record |
| Params.NoDefaultNoExample | lib/params.js:16 | without a value after the path the record has no example |
| Params.Parsed | lib/params.js:12-25 | the first map's result, element by element |
| Params.RejectObjects | lib/params.js:26-31 | the second map returns the records unchanged exactly when none is `object` or an array of `object`, else throws `Nested objects are not supported` |
| Params.BuildParam | lib/params.js:13-25 | building a record in place and calling `SetType` on it gives `ParseParam` |
| Params.TypeParams | lib/params.js:12-25 | the loop over the values computes the first map |
| Params.CheckObjects | lib/params.js:26-31 | the loop over the records computes the second map |
| Params.ParseParams | lib/params.js:11-34 | the whole function equals `ParseParamsSpec` |
| Params.ParseParamsSuccess | lib/params.js:12-33 | the function returns exactly when every value types and none is an object, and then one record per value in order |
| Params.ParseParamsFirstError | lib/params.js:12-31 | the first value that fails to match or type decides the error, whatever object params exist anywhere |
| Params.ParseParamsRejectsObject | lib/params.js:26-30 | when every value types, an object param anywhere makes the function throw |
| Returns.ReturnFlags | lib/returns.js:4 | flag `k` is set exactly when the type can close at `k` with white space and a description after it |
| Returns.LocateReturn | lib/returns.js:4 | the split found is one the expression admits |
| Returns.MatchReturn | lib/returns.js:10 | a match exists exactly when a split is found; its description is non-empty; a value not opening with `{` never matches |
| Returns.LocateReturnComplete | lib/returns.js:4 | whenever the expression can match, the matcher matches with the latest type and, for it, the longest white space |
| Returns.ReturnLast | lib/returns.js:4 | a type that can close at `k` with no `}` after it is the one chosen |
| Returns.ReturnRoundTrip | lib/returns.js:4 | a rendered `{type}<spaces>description` reads back as its type and description |
| Returns.ParseReturn | lib/returns.js:9-23 | a non-matching value throws; otherwise the description is the capture and the type is `TypeOf` of the token |
| Returns.ReturnTyping | lib/returns.js:11-21 | `{T[]}` gives `array` with items `getType(T)`, anything else `getType` of the token; nothing is lower-cased or validated |
| Returns.ParseReturns | lib/returns.js:8-25 | no values give `null`; on success there is a record exactly when there are values |
| Returns.ReturnsFirst | lib/returns.js:24 | when every value parses, the result is the first value's record |
| Returns.ReturnsLaterMalformed | lib/returns.js:9-11 | a malformed value after the first still makes the call throw |
| Throws.CloseFlags | lib/throws.js:5 | flag `k` is set exactly when `{(.*)}` can close at `k` |
| Throws.RestFrom | lib/throws.js:5 | `\s*([\s\S]+)?$`: no group exactly when only white space is left; a group is the suffix after the white space, and does not start with white space |
| Throws.MatchAt | lib/throws.js:5 | the type group is present exactly when a close was chosen, and is the text between the braces; the description is what follows the close (or the whole value) after white space |
| Throws.MatchThrows | lib/throws.js:5-9 | a type closes at a position that can close it, with no earlier one, and so holds no `}`; without a type no position can close one; the description is the text after the type and white space |
| Throws.Shape | lib/throws.js:12-27 | `{type}` exactly when only the type is truthy, `{description}` exactly when only the description is, both keys otherwise, each with the group's value |
| Throws.ShapeReads | lib/throws.js:12-27 | `{type}` alone is a non-empty type closing at a `}` with only white space after it; `{description}` alone is the value after leading white space, or after `{}` and white space |
| Throws.ParseThrow | lib/throws.js:7-29 | one value: `{type}` alone has a non-empty type without `}` and nothing but white space after it; `{description}` alone is the value after leading white space or after `{}` |
| Throws.ParseThrows | lib/throws.js:7-29 | one record per value, in order |
| Throws.TypeAndText | lib/throws.js:24-27 | `{T} text` gives type `T` and description `text`, white space between them in neither |
| Throws.TypeAlone | lib/throws.js:13-16 | `{T}` alone gives `{type: T}` |
| Throws.TextAlone | lib/throws.js:19-22 | text not opening with `{` gives `{description}`, leading white space dropped |
| Throws.LazyExample | lib/throws.js:5 | `{A} x {B}` gives type `A` and description `x {B}` |
| Throws.EmptyBraces | lib/throws.js:13-25 | `{}` keeps both keys, type empty and description `undefined` |
| Throws.EmptyValue | lib/throws.js:24-25 | an empty value keeps both keys, both `undefined` |
| Secrets.MatchSecret | lib/secrets.js:3 | a match has a non-empty key of word characters and a non-empty description |
| Secrets.MatchSecretIff | lib/secrets.js:3 | a value matches exactly when it reads as a word, white space and a non-empty rest |
| Secrets.ParseSecret | lib/secrets.js:7-8 | a value throws exactly when it does not match |
| Secrets.ParseSecrets | lib/secrets.js:5-12 | on success, one record per value |
| Secrets.SecretsInOrder | lib/secrets.js:6-11 | when every value matches, each record is its value's match, in order |
| Secrets.SecretsFirstError | lib/secrets.js:7-8 | the first non-matching value decides the error |
| Secrets.SecretRoundTrip | lib/secrets.js:3-8 | `key<spaces>text` reads back as its key and description, newlines included |
| Secrets.NonWordKey | lib/secrets.js:3 | a key followed by a character that is neither a word character nor white space makes the value fail |
| Secrets.HyphenatedKey | lib/secrets.js:7-8 | `api-key x` fails to match |
| Description.PrefixEnd | lib/description.js:4 | a prefix is found exactly when some split into a word, `:`, a non-word run and a non-empty rest exists; the name then ends where the leading word does and the description starts after the longest such run |
| Description.MatchName | lib/description.js:4 | no match exactly for the empty text; the description is a non-empty suffix of the text, the whole text without a name; a name is a leading run of word characters followed by `:` |
| Description.SplitAtLeadingWord | lib/description.js:4 | every split the optional group admits ends its name where the leading run of word characters ends |
| Description.MatchNameIff | lib/description.js:4 | the name group takes part exactly when such a split exists; then the name is the leading word, the description is the rest after the longest non-word run, and every other split ends its run no later; otherwise the whole text is the description |
| Description.ParseDescription | lib/description.js:6-12 | `{}` exactly when the comma-joined lines are empty |
| Description.NamePrefix | lib/description.js:4 | `name:<non-word run>rest` gives the name and the rest |
| Description.HelloExample | lib/description.js:4-11 | `hello: Description of hello` names `hello` |
| Description.ColonThenWord | lib/description.js:4 | `a:b` has no name: the whole text is the description |
| Description.NoColon | lib/description.js:4 | text without a colon has no name and is all description |
| Description.NameFromFirstLine | lib/description.js:7 | the name comes from the first line and every later line stays in the description after a `,` |
| FullDescription.FullDescription | lib/full-description.js:1-4 | zero or one line gives `""` |
| FullDescription.FirstLineIgnored | lib/full-description.js:3 | replacing the first line changes nothing |
| FullDescription.EmptyLineIgnored | lib/full-description.js:3 | inserting an empty line after the first changes nothing |
| FullDescription.JoinedWithSpaces | lib/full-description.js:3 | without empty lines, the later lines are joined in order with one space |
| FullDescription.ExampleLines | lib/full-description.js:3 | `Name: x`, ``, `one`, `two` gives `one two` |
| IndexParams.IndexTailSound | index.js:10 | any tail found after a type closing at `k` is an admitted decomposition with that `k` |
| IndexParams.IndexFlags | index.js:10 | flag `k` is set exactly when the type can close at `k` with the rest matching |
| IndexParams.LocateIndexSound | index.js:10 | the split the matcher locates is one the expression admits |
| IndexParams.MatchIndexParam | index.js:48 | a match exists exactly when a split is found; its title is a path, its description non-empty; a value not opening with `{` never matches |
| IndexParams.IndexTailComplete | index.js:10 | for a split's type, the matcher reads the same path and at least as much white space after it |
| IndexParams.SplitScans | index.js:10 | the spaces and path of every admitted split are the ones the greedy scans find |
| IndexParams.LocateIndexComplete | index.js:10 | whenever the expression can match, the matcher matches, with the type running to the last `}` any match can use |
| IndexParams.IndexLast | index.js:10 | a type that can close at `k` with no `}` after it is the one chosen |
| IndexParams.IndexRoundTrip | index.js:5-10 | a rendered `{type}<spaces>path<spaces>description` reads back as its three groups |
| IndexParams.ParseIndexParam | index.js:47-61 | a non-matching value throws; otherwise the record is the captured title and description with the captured type read by `TypeOf`; the title is a path and the description non-empty |
| IndexParams.IndexTyping | index.js:49-59 | a rendered param becomes `{title, description}` typed by `TypeOf`: `T[]` is an array of `getType(T)`, else `getType` of the token; nothing validated |
| Nested.NestedFlags | index.js:15 | flag `i` is set exactly when the expression matches from `i` |
| Nested.NestedShape | index.js:63 | a title is nested exactly when the expression matches somewhere; root and property are non-empty words |
| Nested.GroupsAreWords | index.js:67-69 | both captured groups are non-empty runs of word characters |
| Nested.NestedPathTitle | index.js:62-69 | a path title is nested exactly when it is not a single word; the root is its leading word; `[]` right after it makes it an array child; the property is the word after the `.` that follows |
| Nested.MatchAtStart | index.js:63 | a path title that is not one word matches from its first character |
| Nested.GroupsFromStart | index.js:67-69 | a match at the first character captures the leading word, whether `[]` follows, and the word after the `.` |
| Nested.ArrayChildExample | index.js:75-79 | `foods[].cuisine` has root `foods`, is an array child, and names `cuisine` |
| Nested.DeepPathExample | index.js:15 | `a.b.c` has root `a` and names `b` |
| Nested.FindTitle | index.js:72 | `find`: the first index holding the title, and none before it; none when absent |
| Nested.FoldSpec | index.js:62-90 | on success the callbacks keep one record per param |
| Nested.FoldCore | index.js:62-90 | the callbacks only change `properties`: titles, descriptions, types and items types stay as built |
| Nested.KeepTop | index.js:92 | the filter never keeps more records than it is given; what it keeps is stated by `KeepTopLength`, `KeepTopAt` and `KeepTopFrom` |
| Nested.KeepTopStep | index.js:62-92 | the filter looks at one param at a time, keeping its record exactly when its title is not nested |
| Nested.KeepTopLength | index.js:62-92 | the filter keeps one record per param that is not nested |
| Nested.KeepTopAt | index.js:62-92 | the record of a param that is not nested is kept, right after the records kept for the params before it |
| Nested.KeepTopFrom | index.js:89-92 | every kept record is the record of a param that is not nested, placed after the records kept before it |
| Nested.StepTop | index.js:63-64 | the callback of a param that is not nested changes nothing |
| Nested.StepNested | index.js:63-89 | a nested param throws when its root is absent, or when it names `root[]` and the root has no items; otherwise it attaches itself to the root |
| Nested.FoldNext | index.js:62-90 | a successful prefix is followed by one more callback |
| Nested.FoldNested | index.js:62-92 | the in-place pass over the shared records, then the filter, equals `NestSpec` |
| Nested.RunCallbacks | index.js:62-90 | the loop of callbacks over the array leaves it as `FoldSpec` says, or returns its error |
| Nested.Callback | index.js:63-89 | one callback, in place: the array becomes `StepSpec` of the old one, or the error is reported |
| Nested.Filter | index.js:92 | the loop keeps the records of the params that are not nested, in order |
| Nested.FoldSticks | index.js:62-90 | once a callback throws, the pass throws that error |
| Nested.FirstBad | index.js:72-82 | the first param whose callback throws, and none before it |
| Nested.FoldOutcome | index.js:72-82 | the callbacks throw exactly when some nested param has no root or needs missing items; the first such param decides the error |
| Nested.NestOutcome | index.js:62-92 | the whole stage throws exactly as the first bad param decides |
| Nested.HasChildIff | index.js:72-86 | a record has a child of a kind exactly when some earlier-processed param is one |
| Nested.LastChild | index.js:86 | the last child of a record naming a property |
| Nested.LastChildIsLast | index.js:86 | every child naming a property comes at or before the last one |
| Nested.StepAt | index.js:77-86 | one callback attaches to the record at `r` exactly when the param is its child and leaves it alone otherwise |
| Nested.AttachKeeps | index.js:78-86 | `props = props || {}; props[sub] = prop`: the key `sub` is added or replaced with the child, every other key is kept |
| Nested.AttachToKeeps | index.js:77-86 | a root keeps its title, description and type; a plain child changes only its `properties`, a `[]` child only its `items.properties` |
| Nested.PropertiesAt | index.js:77-86 | a root has properties (own, or on its items for `[]` children) exactly when it has such a child; each key is named by a child and holds the type and description of the last such child |
| Nested.ArrayRootHasItems | index.js:77-78 | a root with a `root[].sub` child is an array param |
| Nested.NestTitles | index.js:89-92 | the stage returns one record per param that is not nested, with its title, in order |
| Nested.NestReturnsAt | index.js:62-92 | for a param that is not nested, the stage returns its record as the callbacks left it (with the `properties` `PropertiesAt` states), at the place given by the top-level params before it |
| Nested.NestReturnsFrom | index.js:89-92 | every record the stage returns is the folded record of a param that is not nested, so nothing else is returned |
| Nested.NoNesting | index.js:62-92 | without nested titles the stage returns the records unchanged |
| Extract.Named | index.js:36-37 | the filter never returns more values than there are tags |
| Extract.NamedMember | index.js:36 | a value is gathered exactly when a tag carries it under exactly the requested name |
| Extract.NamedAppend | index.js:33-37 | gathering distributes over concatenation, so tag order is kept |
| Extract.GetTagsMember | index.js:32-38 | `getTags`: a value is gathered exactly when some block carries it in a tag of the requested name |
| Extract.GetTagsAppend | index.js:32-38 | the tags of two runs of blocks are gathered one run after the other |
| Extract.GetTagsOne | index.js:32-38 | a single block's tags are gathered in order |
| Extract.DescriptionAppend | index.js:46 | the description of two runs of blocks with lines is their descriptions joined with `,` |
| Extract.MatchThrowsGreedy | index.js:21 | the type is the text up to a position that can close it, and no later one can; without a type no position can close one; the description is the text after the type and white space |
| Extract.ParseThrowGreedy | index.js:93-113 | one value: `{type}` alone closes at the last `}` that can close it with only white space after; `{description}` alone is the value after leading white space or after `{}` |
| Extract.GreedyExample | index.js:21 | `{A} x {B}` is all type, `A} x {B`, with no description |
| Extract.GreedyAgreesWithLazy | index.js:21 | with at most one `}`, index.js and lib/throws.js shape a value alike |
| Extract.SameClose | index.js:21 | with at most one `}`, the greedy and the lazy expression capture the same groups |
| Extract.Extract | index.js:40-115 | `extract` on the tokenizer's blocks equals `ExtractSpec` |
| Extract.ParamsNeedMatches | index.js:47-48 | both `params` stages return only when every value matches the param expression |
| Extract.ExtractMalformedParam | index.js:47-49 | the first `@param` value that does not match makes `extract` throw |
| Extract.ExtractThrows | index.js:93-113 | every `@throws` value gives one record, in order, shaped by the greedy grammar |
| Extract.NoParams | index.js:47-92 | a comment without `@param` tags returns with no params |
| Extract.FlattenMember | index.js:33-35 | every gathered tag comes from some block |

## Left out

- The `comments-parser` tokenizer (index.js:1, 41) is a foreign library and is not part of this model. Its output, a sequence of blocks of lines and `{name, value}` tags, is the input of `Extract.Extract`.
- parse-directory.js is not part of this model: it is file-system I/O with a `.js` suffix filter.
- lib/errors.js is not part of this model. It wraps `lodash.template`, whose compiled function and interpolation cannot be seen here.
- SetType.CastExample: `parseFloat` and `JSON.parse` are foreign parsers and are kept opaque. The number and array branches record the literal they would parse. A JSON parse failure is not modelled.
- The document assembler behind example.js (name override, combining the lib pieces, stub injection) is not implemented by any modelled file.
- Strings.ToLower: lower-cases ASCII letters only. Full Unicode case mapping would only change the text of an `Invalid type` error, never whether a type is accepted.
- SetType.SetTypeSpec: the example given to it is a string or nothing, as lib/params.js passes. Any other `exampleData` value a caller might set is not modelled.
- Nested.PropOf: a child contributes its `type` and `description` only, as index.js:86 writes. A folded child's own `items` are therefore dropped, as in the source.
- Nested.FoldSpec: the `properties` maps are Dafny maps. JavaScript key insertion order, and the special `__proto__` key, are not modelled.
- Nested.NestedPathTitle: characterises the nested test for path titles only, the only titles `index.js`'s `@param` grammar lets through. `Nested.Nested` itself is defined on every string.
- Strings are sequences of Unicode code points; JavaScript strings are sequences of UTF-16 code units, so a character outside the Basic Multilingual Plane is one element here and two in the source. This shows where a scan gives characters back or a slice counts units. With `[\W]+` at lib/description.js:4, `note:🔥` gets the name `note` and a lone low surrogate as description in the source, but no name here (Description.MatchName). `slice(1, -1)` at lib/params.js:19 can cut a surrogate pair in half in the source, but never here (Strings.SliceInner).
- Errors are values of `Base.Error` naming the failure and its input, rather than JavaScript `TypeError` or `Error` objects with message text. The three `index.js` cases are a non-matching value, a missing root and a missing `items`.
- Params.RenderRoundTrip, Returns.ReturnRoundTrip and IndexParams.IndexRoundTrip are stated for canonical renderings, such as a type without `}` or line terminators. The completeness and priority lemmas cover every other input.
- The `.map` over `parsedParams` in `index.js` runs its callbacks one after another over shared records. It is modelled as a loop over an array of record values, where attaching to a root writes that root's slot. No other aliasing between records exists in the source, since every root is a distinct object.
