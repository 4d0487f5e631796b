# corectl configuration, engine URL and dimension core in Dafny

This project models three pieces of `corectl`, the command-line client for
the Qlik Associative Engine.

* **Configuration resolution** (`pkg/huggorm/config.go`), in module `Config`:
  * the registry of valid property names;
  * `${NAME}` substitution of environment variables throughout a parsed
    YAML tree;
  * the "did you mean" suggestion, which uses a weighted Levenshtein
    distance (module `Levenshtein`);
  * narrowing a YAML map to string keys;
  * validation of top-level properties into a fatal report;
  * merging a saved context into the config.
* **Engine URLs** (`internal/state.go`), in module `EngineState`:
  * normalising an engine address into a WebSocket URL with the default
    port `9076`;
  * the session URL with its TTL path;
  * the app metadata URL over HTTP(S).
* **Dimensions** (`internal/dimension.go`), in module `Dimensions`:
  * structural validation of a dimension definition;
  * the create-or-update decision against the app document;
  * the batch that applies every definition found in the matched files,
    stopping at the first failure.

Module `Strings` supplies the Go `strings` operations these rely on, and
module `Collections` a few general facts about sets and sequences.
Module `Wrappers` supplies `Option` and `Result`.

## How the model is built

Go's `range` over a map visits keys in an unspecified order. Several
operations let that order show through:
* `SubEnvVars` reports whichever missing variable it meets first.
* `GetSuggestion` breaks ties in favour of the first name it meets.
* `validateProps` builds both its suggestions and its mysterious list in
  map order.

Each of these is a method that picks the next key with `:|`, so its
postcondition holds for every visiting order. Each is paired with an
order-free definition of what it computes and a postcondition relating
the two. The pairs are:

| method | order-free definition |
|---|---|
| `SubEnvVars` | `Substitute`, `MissingVars` |
| `GetSuggestion` | `IsSuggestion` |
| `ConvertMap` | `Widen` |
| `Classify` | `Classified` |
| `RenderReport` | `Rendered` |
| `MergeContext` | `MergedWith` |

Everything the Go code takes from its surroundings is a parameter:
* the process environment is `Env`;
* the registry of valid properties, a package-level map in Go, is a `set<string>`;
* the context store is a `ContextStore`;
* the matched files, already parsed and decoded, are given as input;
* the app document is a `Remote`.

The `Remote`'s three operations are functions of the writes issued so
far. `SetDimensions` returns those writes as a trace, so the order and
number of remote effects can be stated.

Two behaviours of the code are easy to misread:
* Non-string keys in `validateProps`. The comment at
  `pkg/huggorm/config.go:112` says such a key "will surely be an invalid
  props", but lines 113-116 look up the key's `fmt.Sprint` rendering in
  the registry. So the key `1` is accepted if "1" is registered, and it can
  receive a suggestion. The model follows the lookup.
* Running `SubEnvVars` twice. A second run on a successful result succeeds
  and changes nothing when no environment value has the form `${...}`
  (`SubEnvVarsTwice`). It can fail when a referenced variable's value
  itself has that form: with A=`${B}` and B=`x`, the first run turns
  `${A}` into `${B}` and a second run turns that into `x`
  (`SubstituteNotIdempotent`).

## Model

| member | source | states |
|---|---|---|
| Config.AddValidProp | pkg/huggorm/config.go:13-17 | registering a name makes it valid, keeps every earlier name, and adds nothing else |
| Config.Reference | pkg/huggorm/config.go:26-27 | a leaf is a reference exactly when it starts with `${` and ends with `}`, and the leaf is then `${` + name + `}` |
| Config.ReferenceOfPlaceholder | pkg/huggorm/config.go:26-27 | trimming `${` and `}` recovers the variable name from any placeholder |
| Config.SubstituteText | pkg/huggorm/config.go:24-33 | a non-reference is left alone; a reference to a set, non-empty variable becomes its value; any other reference is the "not found" error naming the variable |
| Config.EmptyReferenceFails | pkg/huggorm/config.go:26-31 | `${}` names the empty variable, which `os.Getenv` reports as empty, so it always fails |
| Config.SubEnvVars | pkg/huggorm/config.go:21-42 | succeeds exactly when no reachable reference is missing; on success the result is the order-free substitution of the tree; on failure the error names one of the missing variables |
| Config.SubstituteKeepsShape | pkg/huggorm/config.go:21-42 | substitution changes no key at any depth, leaves lists and non-string scalars alone, and only rewrites string leaves into strings |
| Config.SubstituteIdempotent | pkg/huggorm/config.go:21-42 | when no environment value looks like a reference, substituting twice equals substituting once |
| Config.SubstituteResolvesAll | pkg/huggorm/config.go:24-33 | when no environment value looks like a reference, a tree with no missing reference has none left after substitution |
| Config.SubEnvVarsTwice | pkg/huggorm/config.go:21-42 | when no environment value looks like a reference, running `SubEnvVars` again on a successful result succeeds with the same map (after a failed first run there is no second run) |
| Config.SubstituteNotIdempotent | pkg/huggorm/config.go:26-29 | with A=`${B}` and B=`x`, a second pass changes `${A}` again |
| Config.GetSuggestion | pkg/huggorm/config.go:45-57 | for every iteration order, the result is a registered name of minimal distance below 4, or "" when every name is at distance 4 or more; a registered word is suggested itself |
| Config.RegisteredWordSuggestsItself | pkg/huggorm/config.go:48-54 | any valid suggestion for a registered word is that word |
| Config.NoSuggestionIff | pkg/huggorm/config.go:47-56 | when "" is not registered, there is no suggestion exactly when every registered name is at distance 4 or more |
| Config.SingletonSuggestion | pkg/huggorm/config.go:47-55 | with one registered name strictly within the limit, that name is the only possible suggestion |
| Config.ColourSuggestsColor | pkg/huggorm/config.go:45-57 | `colour` against {`color`} suggests exactly `color` |
| Config.NothingNearXyz | pkg/huggorm/config.go:45-57 | `xyz123` against {`color`} gets no suggestion, since their distance is 11 |
| Config.ValidPorpIsCloseToValidProp | pkg/huggorm/config.go:46-50 | two swapped adjacent letters stay within the suggestion limit |
| Config.ConvertMap | pkg/huggorm/config.go:61-71 | succeeds exactly when every key is a string, and then re-keying the result as strings gives back the input map; otherwise the error names a non-string key of the input |
| Config.Classify | pkg/huggorm/config.go:106-122 | every unregistered top-level name is either mapped to a real suggestion or listed as mysterious with none, nothing registered is reported, and each key lands in exactly one list: a name with no suggestion entry is listed as mysterious once per top-level key that prints as it, and a suggested name fewer times than that |
| Config.StringKeysListedOnce | pkg/huggorm/config.go:109-120 | when every top-level key is a string, no mysterious name is listed twice |
| Config.SingleKeyOneList | pkg/huggorm/config.go:115-120 | a name only one key prints as is either suggested or listed once as mysterious, never both, even when "" is registered |
| Config.SameNameListedPerKey | pkg/huggorm/config.go:109-119 | with nothing registered, a string key `"1"` and a number key printing as `1` give the mysterious list `['1', '1']` and no suggestion |
| Config.ClassifiedReports | pkg/huggorm/config.go:109-123 | something is reported exactly when some top-level key is unregistered |
| Config.ClassifiedExclusive | pkg/huggorm/config.go:115-120 | when "" is not registered, no name is both suggested and mysterious |
| Config.CloseWordHasSuggestion | pkg/huggorm/config.go:116-120 | a name within the limit of a registered name is never mysterious |
| Config.NoMysteriousWhenAllClose | pkg/huggorm/config.go:115-120 | if every unregistered name has a suggestion, the mysterious list is empty |
| Config.TypoGetsOneSuggestion | pkg/huggorm/config.go:106-122 | a registered property plus a near misspelling of it yields exactly one "did you mean" entry pointing at the property, and no mysterious entry |
| Config.QuoteAll | pkg/huggorm/config.go:119 | every name is wrapped in single quotes, one for one and in order |
| Config.MysteriousLine | pkg/huggorm/config.go:130-137 | the line is "Also, mysterious properties: " after suggestions and "Mysterious properties: " otherwise, followed directly by the quoted names joined by ", ", with nothing in between |
| Config.RenderReport | pkg/huggorm/config.go:123-138 | the header naming the config file, then exactly one "did you mean" line per suggestion, then the mysterious line only when there are mysterious names |
| Config.ValidateProps | pkg/huggorm/config.go:106-140 | a fatal report is produced exactly when some top-level key is unregistered, and the report is a correct classification, each key counted in exactly one list, with correctly rendered lines |
| Config.ResolveContext | pkg/huggorm/config.go:143-153 | an empty context name means the current context; there is a context to merge exactly when that name exists, and it is the store's context of that name |
| Config.MessagesIdentifyError | pkg/huggorm/config.go:31-67 | the "environment variable not found" error of line 31 and the "property is not a string" error of line 67 never coincide, and each gives back the variable or property it names |
| Config.ConflictWarningNamesProperty | pkg/huggorm/config.go:159 | the conflict warning names its property: equal warnings exactly for equal properties |
| Config.MergeContext | pkg/huggorm/config.go:142-164 | with no context, the config is unchanged; otherwise the result has the keys of both, the config's value wins, context-only properties are added, and each shared property is warned about exactly once |
| Config.MergeExample | pkg/huggorm/config.go:157-163 | merging {engine: a} with context {engine: b, ttl: 30} gives {engine: a, ttl: 30} and one warning, for `engine` |
| Levenshtein.DistanceToSelf | pkg/huggorm/config.go:46-50 | a word is at distance 0 from itself |
| Levenshtein.ZeroDistanceMeansEqual | pkg/huggorm/config.go:46-50 | distance 0 only between equal words |
| Levenshtein.DistanceZeroIff | pkg/huggorm/config.go:46-50 | distance is 0 exactly between equal words |
| Levenshtein.DisjointDistance | pkg/huggorm/config.go:46-50 | words with no character in common are at the sum of their lengths |
| Levenshtein.OneDeletion | pkg/huggorm/config.go:46-50 | deleting one character costs at most 1 |
| Levenshtein.EditStep | pkg/huggorm/config.go:46-50 | a shared last character is free, and a delete or an insert costs 1 |
| Levenshtein.AdjacentSwap | pkg/huggorm/config.go:46-50 | swapping adjacent characters costs at most 2: one deletion and one insertion, each costing 1 |
| Strings.Split | internal/state.go:138 | there is one more piece than separators, no piece contains the separator, and joining the pieces back gives the input |
| Strings.ReplaceAllSkipsPrefix | internal/state.go:154-155 | a prefix that cannot start a match passes through an unlimited replace unchanged |
| EngineState.WithScheme | internal/state.go:130-137 | `ws://` and `wss://` addresses are kept, and anything else gets `ws://` in front |
| EngineState.TidyUpEngineUrl | internal/state.go:129-142 | the result has a WebSocket scheme and at least two colons, begins with the scheme-normalised address, and adds at most `:9076` |
| EngineState.TidyUpAddsPortIffOneColon | internal/state.go:138-140 | `:9076` is appended exactly when the scheme-normalised address has a single colon |
| EngineState.TidyUpIdempotent | internal/state.go:129-142 | tidying a tidied URL changes nothing |
| EngineState.TidyUpFixedPoints | internal/state.go:129-142 | a URL is left unchanged by tidying exactly when it has a WebSocket scheme and at least two colons |
| EngineState.BuildWebSocketUrl | internal/state.go:144-147 | the URL has a WebSocket scheme, ends with `/app/engineData/ttl/` and the TTL, and everything before that is the tidied engine URL |
| EngineState.WsSurvivesWssReplace | internal/state.go:154-155 | replacing `wss://` cannot disturb a leading `ws://` |
| EngineState.WssBecomesHttps | internal/state.go:154-155 | a `wss://` URL comes out of the two replacements starting with `https://` |
| EngineState.WsBecomesHttp | internal/state.go:154-155 | a `ws://` URL comes out of the two replacements starting with `http://` |
| EngineState.HttpBaseScheme | internal/state.go:153-155 | the HTTP base starts with `https://` when the tidied URL uses `wss://`, and with `http://` otherwise |
| EngineState.HttpBaseAppend | internal/state.go:154-156 | appending the path keeps the base as prefix and the scheme choice, and `https://` appears exactly for `wss://` engines |
| EngineState.BuildMetadataUrl | internal/state.go:149-158 | the URL is empty exactly when no app id is given; otherwise it is exactly the HTTP base followed by `/v1/apps/`, the escaped id and `/data/metadata`, and it uses HTTPS exactly when the engine uses `wss://` |
| Dimensions.Validate | internal/dimension.go:16-30 | a definition passes exactly when it has `qInfo` with a non-empty id and type `dimension`; otherwise the error is the first failing check in the fixed order |
| Dimensions.ValidationMessagesDistinct | internal/dimension.go:17-28 | each of the four checks has its own message |
| Dimensions.ValidateExamples | internal/dimension.go:26-29 | a `measure` type is rejected as the wrong type, and a `dimension` type with an id passes |
| Dimensions.SetDimension | internal/dimension.go:87-106 | a failed lookup is returned as it is and writes nothing; otherwise exactly one write with the raw JSON is issued, an update of that id when the handle is non-zero and a create otherwise; a failed update is reported as "could not update" and a failed create as "could not create", with the id |
| Dimensions.ApplyMessageIdentifiesWrite | internal/dimension.go:92-104 | a failed update and a failed create never read the same; for one id, the message gives back the document's error |
| Dimensions.Step | internal/dimension.go:69-82 | a definition that fails to decode or validate writes nothing and yields the matching error for its file; a valid one is applied under its own `qId` |
| Dimensions.FirstUnparsed | internal/dimension.go:64-68 | every file before the returned index parsed, and the file at the index, if any, did not |
| Dimensions.SetDimensions | internal/dimension.go:58-85 | a glob failure writes nothing. Success means every file parsed and every definition was applied in file order. Otherwise the run either applied all reachable definitions and stopped at the first unparsable file, or stopped at the first definition whose handling failed |
| Dimensions.BatchMessageIdentifiesFileFailure | internal/dimension.go:62-78 | the parse, decode and validation failures of a file never read the same, whatever the paths and details, and a validation failure in a given file names its check |
| Dimensions.AppliedWritesMatchDefinitions | internal/dimension.go:69-82 | each write of a run belongs to the definition at the same position: that definition is valid, the write carries its raw JSON and its id, and it is an update exactly when the document then held that id |
| Dimensions.InvalidDefinitionWritesNothing | internal/dimension.go:70-78 | a run stopped by an undecodable or invalid definition issued no write for it |
| Dimensions.SecondFileInvalid | internal/dimension.go:64-82 | with a valid definition in the first file and one with an empty `qId` in the second, exactly one write is issued, and the run ends with a missing-`qId` validation error for the second file |

## Left out

- `ReMarshal`, `findConfigFile`, `toAbsPath` and `Glob` in `pkg/huggorm/config.go` are left out. They are YAML re-encoding and file-system lookups, outside the modelled logic.
- `ListDimensions` in `internal/dimension.go` is left out. It is an engine RPC whose listing the engine computes.
- `getSessionID`, `FatalError` and the state constructors in `internal/state.go` are left out. They are user and host lookups, engine connection set-up, and process exit.
- `getEntityPaths` and `parseEntityFile` are not part of this model. Their results (the glob outcome and each file's parse outcome) and the JSON decoding of each definition are inputs to `SetDimensions`.
- `log.Fatalln`, `log.Warnf` and `log.Verboseln` are not performed. `ValidateProps` returns the report lines, and `MergeContext` returns the conflicting property names that `ConflictWarning` would print.
- `LogVerbose` (`internal/dimension.go:93`, `:99`) is not performed. `FatalError` and `FatalErrorf` (`internal/dimension.go:62-81`) do not exit: `SetDimensions` returns the error that would end the process.
- `Config.SubEnvVars`: the failure result carries no map. Go has already rewritten, in place, the entries it visited before the failing one; which entries those are depends on iteration order.
- `Config.ConvertMap`: the failure result carries no map. Go returns the partially filled map along with the error; the model drops it.
- `Config.GetSuggestion`: the distance is the texttheater/golang-levenshtein `DefaultOptions` distance, stated as a recursive definition over runes. The library itself is not part of this model.
- `EngineState.BuildMetadataUrl`: `url.QueryEscape` is the parameter `escape`, and nothing is assumed about it.
- `Dimensions.SetDimensions`: the context argument and cancellation are not modelled. The document is assumed to answer each call, with a value or an error.
- `Config.Key`: `fmt.Sprint` of a non-string key is its `repr` text. Two distinct non-string keys with the same rendering are not distinguished.
- `NewContextHandler` is not part of this model. The store is `ContextStore`, and a name it does not hold reads as "no context".
- `Dimensions.ApplyMessageIdentifiesWrite`: the document's error is recovered only for a known id. The message puts the id and the error side by side with no delimiter, so two different ids can render alike. A lookup failure is the document's error passed through unchanged and is not covered.
- `Dimensions.BatchMessageIdentifiesFileFailure`: the path and the parser's detail are recovered only for a validation failure in a known file. Paths and details share no delimiter, so other failures are told apart only by kind.
