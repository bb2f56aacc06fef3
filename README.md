# NFL API URL utilities — a Dafny model

This project models `nfl_client/url_utils.py`. That module turns URLs the NFL
web client has requested into a small OpenAPI 3.0 description of the API:

- `id_re` finds the first UUID (8-4-4-4-12 hexadecimal digits) in a URL path.
- `urlparse_json(url)` splits the URL. It parses the query with `parse_qs`, so
  repeated names are grouped and empty values are dropped. It then infers a
  type and an example for every query parameter (`array`, `number`, `integer`,
  `boolean` or `string`). Finally it replaces the UUID in the path with `{id}`
  and records it as the path parameter `id`.
- `add_api_component(spec, path, info)` writes a fresh GET operation for
  `path` into `spec['paths']`. It then appends one parameter object per path
  parameter, followed by one per query parameter.
- `generate_openapi_spec(url_json)` builds the header (`openapi: 3.0.0`,
  title `NFL API`, version `1.0.0`) and adds every entry of `url_json`.

Modules:

- `Wrappers`: `Option`.
- `Strings`: character search, `split`/`join`, ASCII lower-casing and hex digits.
- `OrderedMaps`: a Python `dict` as a sequence of key/value pairs with unique
  keys, kept in insertion order. `Put` is `dict.update` with one key and
  `MapValues` is a loop of such updates.
- `UrlSplit`: the part of `urllib.parse.urlsplit` that yields `path` and `query`.
- `QueryStrings`: `parse_qsl` and `parse_qs`, with `+` and `%hh` decoding, plus
  an encoder that they invert.
- `ValueProbes`: the `float()`/`int()` literal grammars and the type inference
  of `urlparse_json`.
- `Uuids`: the `id_re` search and `str.replace`.
- `UrlTemplate`: `urlparse_json`.
- `OpenApi`: the OpenAPI objects. A class `OpenApiSpec` holds the `paths`
  dictionary, which `AddApiComponent` updates in place.
- `Scenarios`: concrete inputs and the results the model gives for them.

The path templating is exactly what the code does:

- it templates UUIDs only, and no integer or all-capitals path segments;
- it uses no singular resource names: the parameter is always called `id`;
- it takes the leftmost UUID match and replaces every occurrence of that exact
  string.

## Model

| member | source | states |
|---|---|---|
| Uuids.FindUuid | nfl_client/url_utils.py:6-7 | The result is the leftmost index where a 36-character 8-4-4-4-12 hex window starts; `None` exactly when no position holds one |
| Uuids.ReplaceAll | nfl_client/url_utils.py:44 | `str.replace` with a non-empty pattern, leftmost non-overlapping occurrences first; its partners `ReplaceAllAbsent`, `ReplaceAllRemoves` and `ReplaceAllInverse` state what it does |
| Uuids.ReplaceAllAbsent | nfl_client/url_utils.py:44 | A string in which the pattern occurs nowhere is returned unchanged |
| Uuids.ReplaceAllRemoves | nfl_client/url_utils.py:43-44 | After replacing the UUID with `{id}`, the UUID occurs nowhere in the templated path |
| Uuids.ReplaceAllInverse | nfl_client/url_utils.py:43-44 | When the replacement's first character does not occur in the path, replacing back restores the original path |
| UrlSplit.SplitUrl | nfl_client/url_utils.py:11 | The path contains neither `?` nor `#` and the query contains no `#` |
| UrlSplit.ComposeSplit | nfl_client/url_utils.py:11 | `urlsplit` recovers scheme, netloc, path, query and fragment from any well-formed composed URL |
| Strings.Join | nfl_client/url_utils.py:20 | `','.join(item)` starts with the first item; `JoinSplit` and `SplitJoin` relate it to `split` |
| Strings.JoinSplit | nfl_client/url_utils.py:20 | Joining the pieces of a split with the separator gives back the string |
| Strings.SplitJoin | nfl_client/url_utils.py:20 | Splitting a join of separator-free pieces gives back the pieces |
| QueryStrings.Unquote | nfl_client/url_utils.py:15 | Percent-decoding never lengthens its input, keeps it non-empty, and leaves a string without `%` unchanged. What each escape decodes to is stated by `UnquoteAsciiEscape`, `UnquoteEscape` and `UnquoteKeepsHighEscape` |
| QueryStrings.UnquoteAsciiEscape | nfl_client/url_utils.py:15 | A `%hh` escape, with hex digits of either case, of a code below 0x80 decodes to the character with that code, and decoding resumes right after it |
| QueryStrings.UnquoteEscape | nfl_client/url_utils.py:15 | Every ASCII character written as `%` and two upper-case hex digits decodes back to itself |
| QueryStrings.UnquoteKeepsHighEscape | nfl_client/url_utils.py:15 | An escape of a byte from 0x80 up stays as text: the `%` is kept and decoding resumes at the hex digits |
| QueryStrings.Decode | nfl_client/url_utils.py:15 | Decoding a name or value never lengthens it and leaves text without `%` or `+` unchanged; `DecodeQuote` shows it inverts the encoder |
| QueryStrings.FieldPair | nfl_client/url_utils.py:15 | A field yields at most one pair, and only with a non-empty value; `FieldPairEncode` shows an encoded pair is read back |
| QueryStrings.ParseQsl | nfl_client/url_utils.py:15 | An empty query gives no pairs; there is at most one pair per `&`-field and every value is non-empty; `ParseQslEncode` shows encoded pairs are read back |
| QueryStrings.Group | nfl_client/url_utils.py:15 | The grouped dictionary has unique keys; `GroupKeys` and `GroupLookup` give its keys and values |
| QueryStrings.Pairs | nfl_client/url_utils.py:15 | Every pair `parse_qsl` keeps has a non-empty value; blank values are dropped |
| QueryStrings.FirstSeen | nfl_client/url_utils.py:15 | The result holds exactly the names of the input, each once |
| QueryStrings.GroupKeys | nfl_client/url_utils.py:15 | The keys of `parse_qs` are the names of the pairs in first-seen order |
| QueryStrings.GroupLookup | nfl_client/url_utils.py:15 | Looking up a name gives all its values in query order, or nothing when it has none |
| QueryStrings.ParseQs | nfl_client/url_utils.py:15 | Keys are unique and in first-seen order; each holds the non-empty list of that name's values |
| QueryStrings.DecodeQuote | nfl_client/url_utils.py:15 | Decoding with `+` and `%hh` inverts the percent-encoder |
| QueryStrings.ParseQslEncode | nfl_client/url_utils.py:15 | `parse_qsl` of an encoded list of pairs with non-empty values returns that list |
| OrderedMaps.Lookup | nfl_client/url_utils.py:55-56 | A key is found exactly when it is present |
| OrderedMaps.Put | nfl_client/url_utils.py:35-40 | `dict.update` with one key. An existing key keeps its place and a new one is appended. The key maps to the new value, other keys are unchanged, and keys stay unique |
| OrderedMaps.PutPut | nfl_client/url_utils.py:57-68 | Updating a key twice is the same as updating it once with the later value |
| OrderedMaps.MapValues | nfl_client/url_utils.py:105-106 | Updating key by key keeps the keys, their order and length, and maps each value |
| ValueProbes.IsIntLiteral | nfl_client/url_utils.py:28-32 | What `int()` accepts: a literal is non-empty and every character after an optional sign is a digit |
| ValueProbes.IntValue | nfl_client/url_utils.py:29 | The value `int()` returns is at most 0 for a literal that starts with `-` and at least 0 otherwise; `IntValueShow` shows it inverts decimal rendering |
| ValueProbes.IsFloatLiteral | nfl_client/url_utils.py:23-27 | What `float()` accepts: after an optional sign it starts with a digit, a `.`, or the first letter of `inf`/`nan` |
| ValueProbes.FloatLiteralStart | nfl_client/url_utils.py:24 | A decimal literal or a spelling of `inf`, `infinity` or `nan` opens with a digit, a `.`, `i` or `n` in either case |
| ValueProbes.IntLiteralIsFloatLiteral | nfl_client/url_utils.py:23-32 | Every `int()` literal is also a `float()` literal, so the integer probe overrides the number probe |
| ValueProbes.BooleanIsNotNumber | nfl_client/url_utils.py:33-34 | `true` and `false` are neither numeric literal, so the boolean check is the only one that applies to them |
| ValueProbes.InferParam | nfl_client/url_utils.py:16-34 | Several values give `array` with a comma-joined example. One value gives `integer` with its value when it is an int literal, `number` with the literal when it is only a float literal, `boolean` for `true`/`false`, and `string` otherwise. No values give `string` with an empty example |
| ValueProbes.ArrayExampleSplits | nfl_client/url_utils.py:18-20 | Splitting the array example at `,` gives back the values when none contains a comma |
| ValueProbes.IntValueShow | nfl_client/url_utils.py:28-30 | The decimal rendering of any integer is an int literal whose value is that integer |
| Scenarios.IntegerProbeExample | nfl_client/url_utils.py:28-30 | The value `7` is typed `integer` with example 7 |
| Scenarios.BooleanProbeExample | nfl_client/url_utils.py:33-34 | The value `true` is typed `boolean` with example `true` |
| UrlTemplate.QueryParameters | nfl_client/url_utils.py:14-40 | One entry per distinct query name, in first-seen order, holding the inferred type of that name's values |
| UrlTemplate.PathTemplate | nfl_client/url_utils.py:41-45 | With no UUID, the path is unchanged and there are no path parameters. Otherwise every occurrence of the first UUID becomes `{id}` and the only path parameter is `id`, a string with the UUID as example |
| UrlTemplate.UrlParseJson | nfl_client/url_utils.py:10-51 | A single entry. Its query parameters are keyed by first-seen name with inferred types. Its key is the path with the UUID templated away and its path parameters are `id` with the UUID, or the unchanged path with none |
| UrlTemplate.TemplateRestoresPath | nfl_client/url_utils.py:41-45 | For a path without `{`, substituting the example back into the template yields the original path |
| UrlTemplate.QueryParametersOfEncoded | nfl_client/url_utils.py:14-40 | For a well-formed URL whose query encodes a list of pairs with non-empty values, there is one query parameter per distinct name, in first-seen order, typed from all of that name's values |
| OpenApi.PathParameterList | nfl_client/url_utils.py:70-81 | One parameter per path entry, in order: `in: path`, `required: true`, the entry's type and example |
| OpenApi.QueryParameterList | nfl_client/url_utils.py:83-93 | One parameter per query entry, in order: `in: query`, no `required` key, the entry's type and example |
| OpenApi.RenderItem | nfl_client/url_utils.py:57-93 | The item's GET operation answers `200` and has one parameter per path and query entry; `RenderItemShape` gives their order and fields |
| OpenApi.RenderItemShape | nfl_client/url_utils.py:57-93 | The GET operation answers `200`. Its parameters are the path parameters then the query parameters, named after their keys, with `required` set only on the path ones |
| OpenApi.RenderPaths | nfl_client/url_utils.py:105-106 | The rendered paths have unique keys, and the same keys in the same order as the input when its keys are unique |
| OpenApi.RenderPathsKeys | nfl_client/url_utils.py:105-106 | The paths of the spec are the keys of the input, and each maps to its rendered item |
| OpenApi.OpenApiSpec.constructor | nfl_client/url_utils.py:97-104 | The header is `3.0.0`, `NFL API`, `1.0.0` and the paths start empty |
| OpenApi.OpenApiSpec.AddApiComponent | nfl_client/url_utils.py:54-93 | The new paths are the old ones updated at `path` with the rendered item; both append loops are proved against it |
| OpenApi.GenerateOpenApiSpec | nfl_client/url_utils.py:96-106 | A fresh spec with the fixed header, whose paths are the input mapped through the rendering |

## Left out

- `yaml.dump` at the end of `generate_openapi_spec`: the model returns the spec object, not its YAML text.
- `ValueProbes.InferParam`: a `float` example is kept as its literal text, not as a binary double, because floating point is not modelled.
- `int()`/`float()` accept surrounding whitespace, digit-group underscores and non-ASCII Unicode digits; the literal grammars here take ASCII only, without whitespace or underscores.
- `QueryStrings.Unquote`: escapes of bytes `%80` to `%FF` stay as `%hh` text. Python's `unquote` decodes the escaped bytes as UTF-8, so `%C3%A9` becomes `é`, and puts U+FFFD in place of invalid sequences such as a lone `%FF`. Names and values that hold such escapes therefore differ from Python's.
- `ValueProbes.IsIntLiteral`: CPython 3.11 and later (and 3.10.7, 3.9.14) make `int()` raise `ValueError` for a decimal string of more than 4300 digits. For such a value `float()` gives `inf` and the type stays `number`, whereas the model has no digit limit and gives `integer`.
- `UrlSplit.SplitUrl`: `urlsplit` drops leading C0 control characters and spaces, removes tabs and newlines, and raises `ValueError` on bad IPv6 brackets and on non-ASCII hosts that fail its NFKC normalisation check. None of this is modelled: `UrlTemplate.UrlParseJson` returns a result where the source raises. The `;` parameters of `urlparse` are kept inside the path.
- `Uuids.ReplaceAll`: `str.replace` with an empty pattern is not modelled (it requires a non-empty pattern). Templating never needs it, because a UUID is 36 characters long.
- `OpenApi.OpenApiSpec.AddApiComponent`: the source re-reads `spec['paths'][path]['get']['parameters']` on each append. The model keeps the list in a local variable and writes it back each step, which has the same effect.
- The `if path_parameters:` and `if query_parameters:` guards are not separate branches. An empty dictionary makes the loop run zero times.
- A missing `required` key is modelled as `None`, and the schema type is held as its name string.
- The HTTP client, the HAR-entry parsing and the merging of several `urlparse_json` results are not part of this model. Only `url_utils.py` is.
