# Greyzone in Dafny

Greyzone puts a human approval step between an AI agent and the shell. An
agent submits a command as a *request*. The owner approves it from a
registered passkey *device*, and only then does the server run the command
and record its outcome. The same server keeps service *tokens* and a store of
*secrets* keyed by (project, config, key). A CLI loads those secrets, from the
local server or from Doppler, and injects them into a child process's
environment. The web UI shows secret values masked.

This project models:

- **The approval gateway** (`ApprovalServer`, over `Requests`). It is a class
  holding the `devices`, `challenges` and `requests` tables and the table
  order of the request rows, plus a ghost log of the WebSocket events. Its
  methods are the device registration and deletion handlers, authentication
  start, request creation, listing and lookup, approve, deny and
  approve-all.
- **The token store** (`TokenStore.Tokens`): upsert and the three deletes.
- **The secret store** (`SecretStore.Store`): list projects and configs, get
  one or all, set, bulk set, delete one or all.
- **The `.env` loader** at the top of the server (`EnvFile`).
- **The CLI**:
  - its config file (`CliConfig`: defaults, dotted read and write);
  - its secret loading (`CliSecrets`: `parseEnvValue`, the Doppler
    `computed` extraction, the local loader, the dispatch and fallback);
  - `greyzone run` (`CliRun`: `-e` entries and the three-layer environment);
  - `greyzone secrets` (`CliSecretsCommand`: escaping and the env lines).
- **The two `maskValue` functions of the web UI** and the Doppler rows of the
  secrets page (`SecretsPage`, `TokensPage`).

`Common` and `Json` hold the vocabulary these share:
- JavaScript truthiness and `||` on optional strings;
- `split`/`join` on one character, and `trim`;
- the byte-order comparison SQLite applies to TEXT;
- JSON values whose objects keep their members in insertion order (see
  "## Left out" for integer-like keys): `obj[k] = v`, the spread
  `{...a, ...b}`, and `k in obj`.

Time is an integer number of milliseconds. Columns filled with SQLite's
`CURRENT_TIMESTAMP` hold whole seconds (`Common.Seconds`). Each handler sees
one `now`.

Everything the code cannot decide by itself is a parameter of the model:
- the WebAuthn library's verdicts;
- the outcome of `execSync`, as a function from request id to outcome;
- fresh random ids;
- the `doppler` process, as a function from command line to parsed output;
- the CLI's `fetch`, as a function from URL to answer.

## Model

| member | source | states |
|---|---|---|
| Requests.StatusNameInjective | server/index.js:85 | the status texts stored in the `status` column are pairwise distinct, so a status filter on the text selects exactly one status |
| Requests.Sweep | server/index.js:284 | the corrected sweep, comparing instants, expires exactly the pending rows whose expiry lies before now, leaves every other row as it was, and keeps the set of ids |
| Requests.SweepProperties | server/index.js:284 | after a sweep no overdue row is left; the sweep only moves rows forward in the lifecycle and never touches a finished row; sweeping twice at the same instant is sweeping once |
| Requests.MatchingSelects | server/index.js:286-289 | with a filter, a row is kept iff its status text equals the filter; without one every row is kept |
| Requests.MatchingPositions | server/index.js:286-289 | the filtered rows are the table's rows at increasing positions, in table order, each once, and a position is taken exactly when its row matches the filter |
| Requests.InsertByAgeSorted | server/index.js:290 | inserting a row into a newest-first list keeps it newest first and adds exactly that row |
| Requests.NewestFirstSorted | server/index.js:290 | `ORDER BY created_at DESC` gives a newest-first permutation of the rows |
| Requests.ListQueryProperties | server/index.js:286-292 | the listing has at most 100 rows, all matching the filter and newest first; it is drawn from the matching rows without repetition, and holds all of them when there are at most 100 |
| Requests.ListQueryOmitsOnlyOlder | server/index.js:290-292 | a matching row left out of the listing is not newer than any row listed |
| Requests.FailureExitCode | server/index.js:401 | a failed command records its exit status, and 1 when the status is missing or 0 |
| Requests.Started | server/index.js:383 | the row becomes `running`, approved by the device's name at the given time, and nothing else changes |
| Requests.Finished | server/index.js:393-405 | success gives `completed` with exit code 0 and the output; failure gives `failed` with the non-zero exit code, the standard error or else the error's message, and, where the handler records it, the standard output or `''`; the exit code is 0 exactly for success; both stamp `completed_at`, and no other field changes |
| Requests.ExecutionEndsTerminal | server/index.js:383-405 | a started and finished request is terminal and keeps its id and command |
| Requests.ExpiryClausesIgnoreTimeOfDay | server/index.js:472 | as written, on the day of its expiry a request is never seen as expired by the sweep and always seen as unexpired by approve-all, whatever the times of day |
| Requests.ExpiredRequestSurvivesSweepAsWritten | server/index.js:284 | a request that expired at 12:00 is still pending for the sweep at 12:05 |
| ApprovalServer.UsedDeviceKeepsCredentials | server/index.js:374-377 | updating a device's counter and last use keeps credential ids unique and unchanged |
| ApprovalServer.Eligible | server/index.js:472 | the corrected selection, comparing instants: approve-all takes, in table order and without repetition, exactly the pending requests whose expiry lies after now |
| ApprovalServer.Outcome | server/index.js:485-492 | approve-all reports `completed` iff the command succeeded, and `failed` otherwise |
| ApprovalServer.RunAllEffect | server/index.js:475-494 | running a list of distinct requests in order changes exactly those rows, each to its approved and finished form, and no other row |
| ApprovalServer.RanAllRespectsLifecycle | server/index.js:475-494 | approve-all only finishes pending rows, leaves finished rows alone, and keeps every id |
| ApprovalServer.RunEach | server/index.js:475-494 | approve-all's loop leaves the table as running each id in turn would, and reports for each id, in order, `completed` or `failed` by its command's outcome |
| ApprovalServer.RunAllOutcome | server/index.js:475-494 | running distinct pending requests in turn keeps every key and id, finishes exactly those rows as approved by the approver, leaves the others, and respects the lifecycle |
| ApprovalServer.SameKeysKeepOrder | server/index.js:475-494 | rewriting rows in place under their own ids keeps the table order approve-all scans |
| ApprovalServer.PendingRowReplaced | server/index.js:422-434 | replacing a pending row with one of the same id keeps the table keyed by id and respects the lifecycle |
| ApprovalServer.Gateway.Execute | server/index.js:383-405 | a pending row is approved by the device's name and finished by the command's outcome, announced first as running and then with its final row |
| ApprovalServer.Gateway.ExecuteAll | server/index.js:475-494 | every given request is run in turn to a terminal state, nothing is announced, and each one's status is reported |
| ApprovalServer.Gateway.RegisterStart | server/index.js:159-189 | registration start stores one `registration` challenge, and excludes every registered credential; the display name defaults to `Admin Device` |
| ApprovalServer.Gateway.RegisterComplete | server/index.js:192-235 | a missing or non-registration challenge answers 400 `Invalid or expired challenge`; a verifier exception, a rejected response or a duplicate credential answer 400 and change nothing; on success exactly one device is added, named `Unknown Device` when no name is given, with the returned counter, and the challenge is deleted |
| ApprovalServer.Gateway.DeleteDevice | server/index.js:238-246 | the device is removed, and the answer is 404 `Device not found` exactly when there was none |
| ApprovalServer.Gateway.AuthStart | server/index.js:309-333 | with no device the answer is 400 `No devices registered` and nothing changes; otherwise one `authentication` challenge is stored that allows every registered credential |
| ApprovalServer.Gateway.CreateRequest | server/index.js:251-277 | without a command the answer is 400 and nothing is stored; otherwise exactly one pending row is added, with priority `normal` by default and the expiry instant of the timeout, and one `new_request` event; a timeout that coerces to NaN or an infinity, or an expiry beyond the range of `Date`, answers 500 `Invalid time value` and stores nothing |
| ApprovalServer.ExpiryInstant | server/index.js:252-259 | the expiry is now + timeout·1000 ms truncated toward zero (timeout 300 when absent, fractions kept), and there is none for a NaN or infinite timeout or a time beyond ±8.64e15 ms |
| ApprovalServer.ExpiryOfWholeSeconds | server/index.js:252-259 | a whole number of seconds, the default included, expires exactly that many thousand ms later, and half a second 500 ms later |
| ApprovalServer.Gateway.ListRequests | server/index.js:280-294 | the table becomes its corrected sweep at now, and the answer is the list query on the swept table |
| ApprovalServer.Gateway.GetRequest | server/index.js:297-306 | the row with the id, or 404 `Request not found` |
| ApprovalServer.Gateway.FindDevice | server/index.js:354 | finds the device holding a credential, or reports that none does |
| ApprovalServer.Gateway.Approve | server/index.js:336-419 | 404 for an unknown id and 400 naming the status for a non-pending one, before anything is touched; a missing challenge, an unknown credential, a throwing or failing verification answer 400 and change nothing; on success the counter is stored, the challenge deleted, and the request ends approved by the device and finished by the command's outcome, with two `request_updated` events |
| ApprovalServer.Gateway.Deny | server/index.js:422-434 | exactly a pending request is denied, with `completed_at` stamped and one `request_updated` event; otherwise 400 `Request not found or not pending` and nothing changes |
| ApprovalServer.Gateway.ApproveAll | server/index.js:437-505 | one verification, with the same error cases as approve; on success the counter is stored, the challenge deleted, every eligible request (by the corrected selection) is run in table order without recording the standard output of a failure, one result per request names its final status, and one `refresh` event is logged |
| TokenStore.PairIdsAtMostOne | server/index.js:103-111 | under the store's invariant a (service, project) pair selects at most one row |
| TokenStore.Tokens.Upsert | server/index.js:552-580 | a missing service, project or token answers 400 and changes nothing; otherwise the pair then selects exactly the answered row, which holds the new token; an existing row keeps its id (`updated`) and a new one gets the `tok_` id (`created`); at most one row per pair is kept |
| TokenStore.Tokens.DeleteById | server/index.js:583-592 | removes the row, and answers 404 exactly when there was none |
| TokenStore.Tokens.DeleteService | server/index.js:595-604 | removes every row of the service and reports how many; 404 when none |
| TokenStore.Tokens.DeleteServiceProject | server/index.js:607-616 | removes the pair's row, and answers 404 exactly when there was none |
| SecretStore.Bulk | server/secrets-api.js:88-108 | the bulk upsert answers one result per entry, in order, keeps every existing row, adds rows only in the addressed (project, config), and stores every entry key |
| SecretStore.BulkFrame | server/secrets-api.js:88-108 | rows of other keys or other (project, config) pairs are unchanged by a bulk set |
| SecretStore.BulkKeepsDescriptions | server/secrets-api.js:92-96 | a bulk update changes the value only, and leaves the description as it was |
| SecretStore.BulkStoresEveryEntry | server/secrets-api.js:88-108 | with distinct entry keys, after a bulk set every entry's key holds its value |
| SecretStore.BulkResultActions | server/secrets-api.js:92-106 | a result is `updated` iff the key existed before the entry was applied |
| SecretStore.BulkKeepsIdsUnique | server/secrets-api.js:98-104 | a bulk set with fresh ids keeps row ids unique |
| SecretStore.Store.ListProjects | server/secrets-api.js:7-12 | every project that holds a secret, once each, in ascending order |
| SecretStore.Store.ListConfigs | server/secrets-api.js:15-21 | every config of the project, once each, in ascending order |
| SecretStore.Store.GetAll | server/secrets-api.js:24-34 | exactly the key-to-value map of the rows of (project, config) |
| SecretStore.Store.GetOne | server/secrets-api.js:37-47 | the key and value, or 404 `Secret not found` exactly when no row matches |
| SecretStore.Store.Set | server/secrets-api.js:50-77 | a missing key or value answers 400 and changes nothing; an existing key gets the new value and description (null when absent) and reports `updated`; otherwise one `sec_` row is inserted and reported `created` |
| SecretStore.Store.BulkSet | server/secrets-api.js:80-111 | without an object body the answer is 400; otherwise the table and the results are those of the bulk upsert |
| SecretStore.Store.Delete | server/secrets-api.js:114-125 | removes only the matching row, and answers 404 exactly when none was removed |
| SecretStore.Store.DeleteAll | server/secrets-api.js:128-135 | removes every row of (project, config), reports how many, and leaves other pairs untouched |
| EnvFile.ParseLine | server/index.js:15-18 | a line defines a variable iff it has `=` and a non-empty text before the first `=` |
| EnvFile.ParseLineAtFirstEquals | server/index.js:15-17 | the name is the trimmed text before the first `=`, the value the trimmed rest, later `=` included |
| EnvFile.ParseLineWithoutEquals | server/index.js:16 | a line without `=` defines nothing |
| EnvFile.ApplyFrame | server/index.js:14-19 | a variable no line defines keeps its value |
| EnvFile.ApplyLastWins | server/index.js:14-19 | the last line that defines a variable decides its value |
| EnvFile.Load | server/index.js:13-19 | loading the file applies its lines in order to the environment |
| CliConfig.GetConfigFields | cli/src/utils/config.ts:17-32 | a missing or unreadable file gives the defaults; otherwise a field comes from the file when it has it, else from the defaults |
| CliConfig.GetConfigValue | cli/src/utils/config.ts:57-72 | descends one field per dotted segment; nothing as soon as a segment is missing or the value is not an object; a found string is returned as it is, any other value as JSON |
| CliConfig.SetPathSucceedsIff | cli/src/utils/config.ts:41-48 | the write fails exactly when an existing intermediate on the path is not an object |
| CliConfig.SetPathThenDescend | cli/src/utils/config.ts:37-48 | after a successful write, reading the same path finds the value written |
| CliConfig.SetPathFrame | cli/src/utils/config.ts:34-54 | a path that leaves the written path reads what it read before |
| CliConfig.SetConfigRoundTrip | cli/src/utils/config.ts:34-72 | `setConfig(k, v)` then `getConfigValue(k)` gives `v`, provided every existing intermediate is an object; the written file is a well-formed object |
| CliSecrets.ReplaceEscapedNewlines | cli/src/utils/secrets.ts:96 | the newline conversion never lengthens the value |
| CliSecrets.ReplaceLeavesNoEscape | cli/src/utils/secrets.ts:95-97 | no backslash-`n` pair is left after the conversion |
| CliSecrets.ReplaceIdempotent | cli/src/utils/secrets.ts:95-97 | converting twice is converting once |
| CliSecrets.StripQuotes | cli/src/utils/secrets.ts:100-103 | a value between matching `"` or `'` loses exactly that pair; a lone quote becomes empty; any other value is unchanged |
| CliSecrets.StripQuotesOnePair | cli/src/utils/secrets.ts:100-103 | one pair of quotes is removed, and only one |
| CliSecrets.ParseEnvValue | cli/src/utils/secrets.ts:93-106 | the parsed value is never longer than the input |
| CliSecrets.ParseEnvValueIsStripOfReplace | cli/src/utils/secrets.ts:95-103 | the value parses to its quotes stripped after newline conversion; the `includes` test changes nothing |
| CliSecrets.ParseEnvValueQuoted | cli/src/utils/secrets.ts:93-106 | a quoted value parses to its inside with escaped newlines converted |
| CliSecrets.ExtractComputed | cli/src/utils/secrets.ts:45-50 | the loop builds the env the extraction defines |
| CliSecrets.ComputedLookup | cli/src/utils/secrets.ts:45-50 | the env has exactly the keys whose value is an object with a `computed` property, each mapped to that property |
| CliSecrets.ComputedKeepsUnique | cli/src/utils/secrets.ts:45-50 | the extracted env has distinct names |
| CliSecrets.ObjectEntries | cli/src/utils/secrets.ts:46 | `Object.entries` throws only for `null`, and gives an object's own members |
| CliSecrets.DopplerArgs | cli/src/utils/secrets.ts:24-35 | `secrets --json`, then `--project` only when a project is known (the option, else `GREYZONE_PROJECT`), then `--config` with the config or `dev` |
| CliSecrets.LocalUrl | cli/src/utils/secrets.ts:65-76 | a request goes out iff a project is given, to `<serverUrl>/api/secrets/<project>/<config>` |
| CliSecrets.ServerData | cli/src/utils/secrets.ts:78-82 | only a 2xx answer with a JSON body is used |
| CliSecrets.LoadFromLocalCases | cli/src/utils/secrets.ts:69-87 | `{}` without a project; with one, exactly the key-value pairs of a 2xx answer with an object body, and `{}` for an unreachable server, another status or another body |
| CliSecrets.LoadFromLocalNeedsProject | cli/src/utils/secrets.ts:69-71 | without a project the result does not depend on the server |
| CliSecrets.LoadFromLocalAsWrittenDropsSecrets | cli/src/utils/secrets.ts:83 | as written, an answer of key-value pairs without a `secrets` key loads as `{}` |
| CliSecrets.LoadFromLocalAsWrittenExample | cli/src/utils/secrets.ts:83 | as written, the server's `{"API_KEY": "abc"}` loads as `{}` |
| CliSecrets.UsesDopplerIff | cli/src/utils/secrets.ts:10-13 | Doppler is used exactly when the config file sets `storage` to `doppler` |
| CliSecrets.LoadSecretsDispatch | cli/src/utils/secrets.ts:9-57 | local storage uses the corrected local loader; Doppler storage uses the extracted values of an object Doppler printed, and falls back to the local loader when Doppler failed or printed `null` |
| CliSecrets.FallbackIgnoresEnvProject | cli/src/utils/secrets.ts:56-66 | the fallback to the local loader ignores `GREYZONE_PROJECT`, so without `--project` it gives `{}` |
| CliRun.ParseEntryAtFirstEquals | cli/src/commands/run.ts:30-31 | an `-e` entry maps the text before the first `=` to everything after it |
| CliRun.ParseEntryWithoutEquals | cli/src/commands/run.ts:30-31 | an entry without `=` maps its key to the empty string |
| CliRun.BuildCliEnv | cli/src/commands/run.ts:27-33 | the loop builds the `-e` env; no `-e` gives `{}` |
| CliRun.CliEnvLastWins | cli/src/commands/run.ts:29-32 | of repeated keys the last entry wins |
| CliRun.CliEnvAbsent | cli/src/commands/run.ts:29-32 | a key no entry names is absent |
| CliRun.MergeEnvPrecedence | cli/src/commands/run.ts:36-40 | a variable comes from `-e` first, else from the secrets, else from the process environment |
| CliRun.SecretsOptions | cli/src/commands/run.ts:21-24 | the secrets config defaults to `dev` |
| CliRun.RunWithoutCommand | cli/src/commands/run.ts:13-17 | with no command the CLI exits 1 before loading secrets |
| CliRun.RunSpawnsWithMergedEnv | cli/src/commands/run.ts:19-48 | with a command, its first word and the rest are handed to the spawn (which joins them into one shell command line); with or without `-e`, each variable comes from the `-e` entries, else the loaded secrets, else the process environment |
| CliRun.ExitStatus | cli/src/commands/run.ts:50-57 | the CLI exits with the child's code, 0 when it has none, and 1 on a spawn error |
| CliSecretsCommand.EscapeIsPerCharacter | cli/src/commands/secrets.ts:23-26 | the chain of replacements, backslash first, escapes each character on its own |
| CliSecretsCommand.UnescapeEscape | cli/src/commands/secrets.ts:23-26 | left-to-right unescaping recovers the value |
| CliSecretsCommand.EscapeInjective | cli/src/commands/secrets.ts:23-26 | distinct values have distinct escapes |
| CliSecretsCommand.EscapeBounds | cli/src/commands/secrets.ts:23-26 | the escape holds no newline and is at least as long as the value |
| CliSecretsCommand.EnvLineReadsBack | cli/src/commands/secrets.ts:27 | a `KEY="escaped"` line gives back its key and, between the quotes, its value; it is one line |
| CliSecretsCommand.EnvFormat | cli/src/commands/secrets.ts:21-28 | one line per secret, in entry order; the loop stops at the first value that is not a string |
| CliSecretsCommand.Format | cli/src/commands/secrets.ts:15 | the format defaults to `env` |
| CliSecretsCommand.SecretsCommand | cli/src/commands/secrets.ts:9-30 | `json` prints the secrets the corrected loader gives; any other format prints their env lines |
| SecretsPage.MaskValue | web-v2/src/pages/Secrets.tsx:131-135 | the mask has 8 or 12 characters; a value of at most 8 characters, the empty one included, is eight bullets; a longer one shows its first and last four characters around four bullets |
| SecretsPage.MaskDependsOnlyOnEnds | web-v2/src/pages/Secrets.tsx:134 | the mask of a long value depends on its first and last four characters only |
| SecretsPage.ShortValuesMaskAlike | web-v2/src/pages/Secrets.tsx:132-133 | no two values of at most 8 characters can be told apart |
| SecretsPage.MaskRevealsAtMostEight | web-v2/src/pages/Secrets.tsx:131-135 | every character of the mask is a bullet or one of at most eight characters of the value |
| SecretsPage.DopplerRows | web-v2/src/pages/Secrets.tsx:51-77 | no rows when the answer is not JSON, is `null` or carries an error |
| SecretsPage.DopplerRowsOfEntries | web-v2/src/pages/Secrets.tsx:62-68 | one row per entry, in order, with project `doppler.project` or `doppler`, config `doppler.config` or `dev`, and source `doppler` |
| SecretsPage.DopplerRowsAsWrittenIgnoreConfig | web-v2/src/pages/Secrets.tsx:26-64 | as written, every row is labelled `doppler` / `dev` whatever the server's config says |
| SecretsPage.DopplerRowsUseConfig | web-v2/src/pages/Secrets.tsx:63 | labelled from the fetched config, rows carry its Doppler project |
| SecretsPage.StaleConfigExample | web-v2/src/pages/Secrets.tsx:26-63 | for a server configured with Doppler project `shop`, the rows as written say `doppler` |
| TokensPage.MaskValue | web-react/src/pages/Tokens.tsx:67-68 | a value of at most 8 characters is eight bullets |
| TokensPage.MaskValueAgrees | web-react/src/pages/Tokens.tsx:67-70 | the tokens page masks every value exactly as the secrets page does |
| TokensPage.DisplayedMask | web-react/src/pages/Tokens.tsx:102 | a secret without a value shows eight bullets; every mask has 8 or 12 characters |

## Left out

- WebAuthn ceremony internals: the option generators and the verifiers are
  oracles. The server stores the returned counter without checking that it
  grew, and the model claims no replay check.
- Challenge lifetime: a challenge has no expiry in the code, and the model
  adds none.
- Approve does not check `expires_at`: an expired but unswept pending
  request can be approved (server/index.js:340-346). The model keeps that.
- `execSync`: the timeout and `maxBuffer` limits are not modelled. The outcome
  of a command is an input. The clock does not advance while a command runs.
- ApprovalServer.Gateway.Execute: the `running` row and the final row are two
  UPDATEs in the code. The model stores the final row once; only a concurrent
  reader could see the `running` row, and its broadcast is kept.
- Concurrency: requests are handled one at a time. The race between two
  approvals of one request is not modelled.
- The status filter of the request listing is spliced into the SQL text.
  The model treats it as an equality test and ignores what a crafted filter
  could do.
- Express routing, HTTPS, static files, the SPA fallback, the JSON envelopes
  beyond status and payload, and the WebSocket delivery are not modelled;
  only a ghost log of the events sent is kept.
- The `/api/config` and `/api/doppler/secrets` handlers of the server
  (server/index.js:778-821) are not modelled. The Doppler rows of the UI take
  the answer as input.
- The GET handlers for devices, tokens and health (server/index.js:153-156,
  510-549, 752) are read-only queries and are not modelled. The copy of the
  secrets handlers inside server/index.js (621-750) matches
  server/secrets-api.js, and only the latter is cited.
- Fresh ids: `randomUUID` and its 8-character slices are assumed not to
  collide. They are parameters required to be unused.
- ApprovalServer.ExpiryInstant: the timeout is an exact real number of
  seconds. The floating-point rounding of `timeout * 1000` and of the sum
  is not modelled, and the coercion of the body's value to a number is the
  caller's: `Timeout` holds its result.
- ApprovalServer.Gateway.ListRequests: runs the corrected `Requests.Sweep`,
  which compares instants, not the text comparison of server/index.js:284.
  As written, a request listed later on its expiry's UTC day stays pending
  (see Findings).
- ApprovalServer.Gateway.ApproveAll: runs the corrected
  `ApprovalServer.Eligible`, not the text comparison of server/index.js:472.
  As written, a request that expired earlier on the same UTC day is still
  run.
- CliSecrets.LoadSecrets: runs the corrected `LoadFromLocal`, not
  `data.secrets || {}` of cli/src/utils/secrets.ts:83, for local storage and
  for the Doppler fallback. As written, the local loader gives `{}` for the
  server's key-value answer.
- CliSecrets.LoadFromDoppler: its fallback is the corrected `LoadFromLocal`,
  as for CliSecrets.LoadSecrets.
- CliRun.RunCommand: loads secrets through the corrected loader. As
  written, `run` with local storage spawns without the stored secrets.
- CliSecretsCommand.SecretsCommand: prints what the corrected loader gives.
  As written, with local storage it prints `{}`, or no env lines, for the
  server's key-value answer.
- Requests.NewestFirst: SQLite leaves the order of rows with equal
  `created_at` unspecified; the model lists them in table order.
  `created_at` has whole-second resolution, so requests made in the same
  second tie.
- ApprovalServer.Gateway.ListRequests: its answer is the list query with
  ties in table order, as Requests.NewestFirst chooses. When ties straddle
  the 100-row limit, SQLite may list other tied rows than the model.
  ListQueryProperties and ListQueryOmitsOnlyOlder state what holds for
  any order of ties.
- Json.Json: an object's members are kept in insertion order. JavaScript
  lists integer-like keys (`"1"`, `"42"`) first, in ascending numeric
  order, in `Object.entries`, `Object.values`, the spread and
  `JSON.stringify`. So CliSecretsCommand.EnvFormat,
  SecretsPage.DopplerRowsOfEntries, CliSecrets.Computed and Json.Overlay
  give the order of such keys differently. Lookups by key are unaffected.
- Json.Json: numbers are integers (`JNum(n: int)`). A fractional number in
  the config file, in Doppler's output or in a server answer is not
  modelled.
- CliRun.RunCommand: `spawn` runs with `shell: true`. Node joins the command
  and its arguments with spaces and runs the line through `/bin/sh -c`, so
  the shell re-splits arguments and interprets its syntax (`run -- echo "a
  b"` passes two words). The model records the words as given and does not
  model the shell.
- Request bodies: a JSON `null` body value, and non-string values in a bulk
  set or an `-e` entry, are not modelled. Values are strings where the code
  expects strings.
- Lengths and trimming count Unicode scalar values, not UTF-16 code units:
  a value with characters outside the Basic Multilingual Plane masks
  differently in a browser.
- CliConfig.SetConfig: modelled as a function on values. It does not capture
  that `setConfig` mutates in place the object `getConfig` returned, which
  is `DEFAULT_CONFIG` itself when no file exists. Arrays on a path are
  treated like other non-objects, and the strict-mode TypeError on a
  primitive intermediate is the walk's failure.
- CliConfig.GetConfigValue: an array on the path is not descended into, and
  inherited properties (`k in obj`) are not modelled.
- CliConfig.GetConfig: a config file whose JSON text is a string or an array
  (whose spread adds index properties) is not modelled.
- CliSecrets.ServerUrl: a truthy `serverUrl` that is not a string would be
  turned into text. The model uses the default for it.
- The `doppler` command line is built by joining words with spaces and run
  through a shell. A project name with spaces or shell syntax is not
  modelled.
- Console warnings, `fs` reads and writes, `process.exit`, and the stdio of
  the child are I/O and are not modelled.
- getConfig is read once per `loadSecrets` call. The model assumes the file
  does not change between the two reads the code makes.
- SecretsPage.DopplerLabel: a truthy `doppler.project` or `doppler.config`
  that is not a string is shown as its text in the browser. The model uses
  the default label for it.
- The local listing of the secrets page, its delete button, and every other
  page are not modelled.

## Findings

| source | as written | input that shows it | evidently intended | confidence | as-written member | corrected member |
|---|---|---|---|---|---|---|
| server/index.js:284 | the sweep compares the ISO text of `expires_at` (`…T…Z`) with SQLite's `datetime('now')` (`… …`) as text | a request expiring at `2026-10-14T12:00:00.000Z`, listed at `2026-10-14 12:05:00`: after the date, `T` sorts after a space, so the row is not expired until the next UTC day | expire every pending row whose expiry instant is before now | not executed | Requests.ExpiredRequestSurvivesSweepAsWritten | Requests.SweepProperties |
| server/index.js:472 | approve-all's `expires_at > datetime('now')` is the same text comparison | any request expiring earlier on the current UTC day is still taken and run by approve-all | take only requests whose expiry instant is after now | not executed | Requests.ExpiryClausesIgnoreTimeOfDay | ApprovalServer.Eligible |
| cli/src/utils/secrets.ts:83 | the local loader returns `data.secrets \|\| {}`, but the server answers the key-value object itself (server/secrets-api.js:24-34) | a store holding `API_KEY=abc`: the server answers `{"API_KEY":"abc"}` and the CLI loads `{}` | return the object of key-value pairs the server sends | not executed | CliSecrets.LoadFromLocalAsWrittenDropsSecrets | CliSecrets.LoadFromLocalCases |
| web-v2/src/pages/Secrets.tsx:26-64 | `fetchDopplerSecrets` reads `config` from the render that started the fetch, still the initial `{storage: 'local'}` | a server configured with Doppler project `shop`: every row is labelled `doppler` / `dev` | label rows with the fetched config's Doppler project and config | not executed | SecretsPage.DopplerRowsAsWrittenIgnoreConfig | SecretsPage.DopplerRowsUseConfig |
