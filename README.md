# Hook query builder of go-gitlab-client, in Dafny

The GitLab client adds or edits a project hook by sending the hook's
settings as an `application/x-www-form-urlencoded` body. `buildHookQuery`
(hooks.go:160-180) builds that body from a `Hook` record
(hooks.go:17-30). It walks the record's fields by reflection and skips
`ID` and `CreatedAt`. It also skips every `*bool` switch whose pointer is
nil. Each remaining field is `Set` in a `url.Values` under the name in its
`json` tag, with `%v` of its value. The values are then `Encode`d: keys in
ascending byte order, `key=value` pairs joined by `&`, both sides
query-escaped.

The project has five modules:

- `Wrappers` (wrappers.dfy): `Option`, used for nil pointers and for parsing that can fail.
- `ByteStrings` (bytes.dfy): Go strings as byte sequences. It holds Go's string order and `strings.Split`, `Join` and `Cut` on a one-byte separator.
- `Query` (query.dfy): `url.Values` with `Set`, `QueryEscape`, `Encode` and `ParseQuery`.
  - `Encode` is specified by its inverse, `Parse`: reading an encoded body gives back exactly the values.
  - Escaping is specified by `Unescape`.
- `Hooks` (hooks.dfy): the record, the field table, and `BuildHookQuery`.
  - `BuildHookQuery` is the loop of `buildHookQuery`, one turn per field.
  - Its result is proved equal to `HookQuery`, an independent definition: "url" with the hook's URL, then one pair per set switch, encoded.
  - The lemmas about `HookQuery` state what the body holds.
- `HookExample` (example.dfy): the hook built in `TestBuildHookQuery` (hooks_test.go:54-70).
  - The test expects the body to be the empty string.
  - `Hooks.QueryNeverEmpty` shows no body can be empty.
  - `HookExample.SampleOrder` shows that this hook's body has exactly seven parts, in the order build_events, enable_ssl_verification, issues_events, merge_requests_events, note_events, push_events, url.

Go strings are byte strings. A byte is modelled as a `char` below 256, so
keys such as `"push_events"` are written as they appear in the Go source.

## Model

| member | source | states |
|---|---|---|
| Hooks.BuildHookQuery | hooks.go:160-180 | The body the loop builds equals the reference body: "url" first, then one `true`/`false` pair per non-nil switch, encoded. It is never empty. Parsing it gives back exactly the values that were Set. |
| Hooks.HookContributions | hooks.go:165-178 | Over the whole record, the walk Sets "url" with the URL, then the set switches in declaration order. ID and CreatedAt add nothing, and neither does a nil pointer. |
| Hooks.PlainContributions | hooks.go:17-20 | Of ID, URL and CreatedAt only URL is Set, under the key "url". |
| Hooks.SwitchContributions | hooks.go:170-177 | A nil `*bool` contributes nothing. A non-nil one contributes its JSON name with "true" or "false". |
| Hooks.ContributionsStep | hooks.go:165-178 | Each turn of the loop either leaves the values alone or Sets one key, overwriting any earlier value. |
| Hooks.ContributionsAppend | hooks.go:165 | The walk over two runs of fields is the walk over the first run, then over the second. |
| Hooks.TagKey | hooks.go:177 | The key is a prefix of the tag with no comma in it, ended by the tag's first comma or by the tag's end. |
| Hooks.TagKeyOfJsonTag | hooks.go:18-29 | For a tag `<name>,omitempty` the key is exactly `<name>`. |
| Hooks.Digits | hooks.go:177 | `%v` of a non-negative int is a non-empty string of decimal digits whose value is the int, with no leading zero. |
| Hooks.Decimal | hooks.go:177 | `%v` of an int starts with '-' exactly when the int is negative. After the sign come decimal digits without leading zeros, whose value is the int's magnitude. |
| Hooks.FormatBool | hooks.go:177 | `%v` of a bool is "true" or "false", and "true" exactly for true. |
| Hooks.Format | hooks.go:177 | `%v` of a field: a string prints as it is, an int as in Decimal, a bool as in FormatBool. Its properties are those of Decimal and FormatBool. |
| Hooks.Contribution | hooks.go:166-177 | One turn of the loop skips the field exactly when its name is ID or CreatedAt or its pointer is nil. Otherwise it Sets the tag's key, which holds no comma. |
| Hooks.Fields | hooks.go:17-30 | The field table the loop walks, in declaration order: ID, URL and CreatedAt held directly, then the nine `*bool` switches, each tagged `<json name>,omitempty`. PlainContributions, SwitchContributions and HookContributions state what the walk over it yields. |
| Hooks.HookKeys | hooks.go:165-178 | The keys sent are "url" plus the JSON name of every switch whose pointer is not nil, and nothing else. |
| Hooks.KeysNamed | hooks.go:177 | Every key sent is "url" or the JSON name of a set switch. |
| Hooks.NamedKeysSent | hooks.go:170-177 | "url" and the JSON name of every set switch are sent. |
| Hooks.UrlAlwaysSet | hooks.go:19 | "url" is always sent with the hook's URL, even an empty URL, because URL is not a pointer. |
| Hooks.SwitchSet | hooks.go:171-177 | A switch's key is sent if and only if its pointer is not nil. The value is "true" for true and "false" for false. |
| Hooks.SwitchPairsMembers | hooks.go:171-177 | A switch pair is exactly the JSON name and printed value of a set switch. |
| Hooks.SwitchPairsDistinct | hooks.go:21-29 | Different switches give different keys, so no switch pair overwrites another. |
| Hooks.SwitchPairsCount | hooks.go:171-174 | There is one switch pair per non-nil switch. |
| Hooks.HookPairsDistinct | hooks.go:177 | No key is Set twice for one hook; "url" differs from every switch key. |
| Hooks.SwitchKeyInjective | hooks.go:21-29 | The JSON names of the switches are pairwise different and differ from "url". |
| Hooks.PairCount | hooks.go:165-178 | The body has 1 + (number of non-nil switches) pairs, so between 1 and 10. |
| Hooks.IdAndCreatedAtIgnored | hooks.go:167-169 | Changing ID or CreatedAt leaves the body unchanged. |
| Hooks.SwitchPairsSameFlags | hooks.go:171-177 | The switch pairs depend only on the nine switches. |
| Hooks.QueryNeverEmpty | hooks.go:179 | The body is never the empty string. |
| Hooks.SwitchKeySnakeCase | hooks.go:21-29 | Every switch key is made of lower-case letters and underscores. |
| Hooks.SnakeCaseUnreserved | hooks.go:179 | Lower-case letters and underscores are all unreserved. |
| Hooks.LiteralsUnreserved | hooks.go:177-179 | Every key, and both "true" and "false", consist of unreserved characters only. |
| Hooks.OnlyUrlNeedsEscaping | hooks.go:177-179 | Escaping leaves every key and every switch value unchanged; only the URL can be altered. |
| Hooks.QueryShape | hooks.go:179 | Cut at each '&', the body has one `key=value` part per key. Keys are strictly ascending, and only the URL is escaped. |
| Query.Escape | hooks.go:179 | An escaped string never contains '&' or '=' and is at least as long as the original. |
| Query.EscapeUnreserved | hooks.go:179 | Escaping leaves a string of unreserved characters as it is. |
| Query.EscapeChangesReserved | hooks.go:179 | Escaping changes every string that holds a reserved character. |
| Query.EscapeConcat | hooks.go:179 | Escaping works byte by byte: it distributes over concatenation. |
| Query.UnescapeEscape | hooks.go:179 | Unescaping an escaped string gives the string back. |
| Query.UnescapeEscapeByte | hooks.go:179 | Unescaping undoes the escape of each single byte. |
| Query.UpperHex | hooks.go:179 | A digit below 16 prints as a hex digit with that value. |
| Query.HexValue | hooks.go:179 | A hex digit's value is below 16. |
| Query.SortedKeys | hooks.go:179 | The listed keys are strictly ascending, and they are exactly the keys of the map. |
| Query.SortedKeysUnique | hooks.go:179 | Any strictly ascending listing of the keys is the one Encode uses. |
| Query.AscendingUnique | hooks.go:179 | Two strictly ascending listings of the same keys are equal. |
| Query.AscendingFromNeighbours | hooks.go:179 | A listing whose neighbours are in order is strictly ascending. |
| Query.LeastExists | hooks.go:179 | Every non-empty key set has a least key. |
| Query.LeastFirst | hooks.go:179 | The least key followed by an ascending listing of the rest is ascending. |
| Query.Encode | hooks.go:179 | `url.Values.Encode`. EncodeEmpty, EncodeParts and ParseEncode carry its contract: the result is "" exactly for the empty map; split at '&', it is one escaped `key=value` per key in ascending key order; parsing it gives the map back. |
| Query.FromPairs | hooks.go:177 | A run of `v.Set` calls, each overwriting the key's earlier value. FromPairsKeys, FromPairsValue and FromPairsSize carry its contract: the keys are exactly those Set; with no key Set twice, each holds its own value and there is one entry per Set. |
| Query.EncodeEmpty | hooks.go:179 | Encode gives the empty string exactly for the empty map. |
| Query.EncodeParts | hooks.go:179 | Cut at each '&', a non-empty encoding gives back one escaped pair per key, in key order. |
| Query.ParseEncode | hooks.go:179 | Parsing an encoding gives back exactly the encoded values. |
| Query.ParseEncodedParts | hooks.go:179 | Each encoded pair parses back to its key and value. |
| Query.ParsePair | hooks.go:179 | A single encoded pair is non-empty and parses back to its key and value. |
| Query.FromKeyValues | hooks.go:177 | Setting every key once rebuilds the map. |
| Query.FromPairsKeys | hooks.go:177 | After a run of Sets, the keys present are exactly the keys that were Set. |
| Query.FromPairsValue | hooks.go:177 | With no key Set twice, each key holds the value it was Set to. |
| Query.FromPairsSize | hooks.go:177 | With no key Set twice, there are as many entries as Sets. |
| ByteStrings.Split | hooks.go:177 | The first piece is the text before the first separator, and no piece holds the separator. |
| ByteStrings.SplitJoin | hooks.go:179 | Splitting a '&'-join of separator-free parts gives the parts back. |
| ByteStrings.JoinSplit | hooks.go:179 | Joining the pieces of a split gives the string back. |
| ByteStrings.IndexOf | hooks.go:177 | The position found holds the separator, and no earlier position does. |
| ByteStrings.Less | hooks.go:179 | Go's `<` on strings, which Encode uses to sort keys: bytewise, with a proper prefix first. LessIrreflexive, LessAsymmetric, LessTransitive and LessTotal make it a strict total order. |
| ByteStrings.LessIrreflexive | hooks.go:179 | No key sorts before itself. |
| ByteStrings.LessAsymmetric | hooks.go:179 | Of two keys, at most one sorts before the other. |
| ByteStrings.LessTransitive | hooks.go:179 | The key order is transitive. |
| ByteStrings.LessTotal | hooks.go:179 | Of two different keys, one sorts before the other. |
| HookExample.SampleOrder | hooks_test.go:54-70 | A hook with the test's switches is sent exactly seven pairs, in the order build_events, enable_ssl_verification, issues_events, merge_requests_events, note_events, push_events, url. |
| HookExample.SampleKeysAscending | hooks_test.go:57-67 | Those seven keys are in Go's string order. |
| HookExample.SampleKeysPresent | hooks_test.go:57-67 | Each of the seven keys is sent. |
| HookExample.SampleKeysOnly | hooks_test.go:57-67 | No other key is sent. |
| HookExample.TestHookOrder | hooks_test.go:57-69 | The hook built in the test, with any URL, gives a body of seven parts in the same key order. |

## Left out

- The hook CRUD calls (hooks.go:42-155) are not part of this model. They are HTTP requests through client code outside these files, and JSON decoding of the responses.
- ParseHook, HookPayload, Branch and Head are not part of this model, because their source is not among the modelled files. This includes the webhook payload decoding the wider client offers.
- A nil `*Hook` is not modelled. In Go, buildHookQuery panics on it at hooks.go:163-164, because `reflect.ValueOf(hook).Elem()` is the zero Value and `.Type()` panics. AddProjectHook (hooks.go:99-102) passes the caller's pointer to it unchecked. EditProjectHook panics earlier on a nil pointer, at hooks.go:126, where it reads `hook.ID`. Hooks.BuildHookQuery takes the record by value, so it has no nil input and no panic path.
- TestHook (hooks_test.go) is not part of this model. It reads stub files and talks to a test server.
- Reflection is replaced by an explicit field table `Hooks.Fields`: each field's Go name, `json` tag and value, in declaration order. The model does not derive the table from the struct.
- `url.Values` holds a list of values per key. The model keeps one value per key, because `Set` replaces the list and buildHookQuery only uses `Set`.
- Query.Parse is a reference inverse of `Encode`, not a full model of `url.ParseQuery`. When a key repeats, the last value wins. Any bad escape fails the whole parse. It does not reject ';'.
- Query.Escape follows `QueryEscape` byte for byte: unreserved bytes are kept, a space becomes '+', and every other byte becomes `%XY` in upper-case hex. `net/url`'s other escaping modes are not modelled.
- Hooks.Decimal: Go's fixed-width `int` is modelled as an unbounded integer. This does not matter here, because the only int field, ID, is never formatted.
- HookExample.SampleOrder does not state the escaped URL part as a literal string. The other parts' values are given by Hooks.SwitchSet, and each part's form by Hooks.QueryShape.
