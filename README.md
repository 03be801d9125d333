# Redirect list loader and publisher, modelled in Dafny

Two scripts share one loading stage. `encode.js` publishes the redirects and
`core.js` is the loader module the link checkers import. Both read every
`*.yaml`/`*.yml` file, each holding a YAML list of `{from, to}` records, and
walk the files record by record:

- a file that does not parse, or whose top level is not a list, raises one
  error and is skipped;
- a record that is not an object raises `<file> entry <n> is not a dict`;
- a record whose `from` is not a non-blank string raises `"from" field invalid`
  and is dropped;
- a record whose `to` is not a non-blank string raises `"to" field invalid`,
  but it is still kept;
- a kept record has its `from` lower-cased and its leading run of `/` removed;
- the record is then pushed to the combined list, and a copy tagged with its
  file and 1-based entry number is filed in a table keyed by the normalized
  `from`.

After the loop:

- an empty list raises "No redirects";
- every key filed two or more times raises one report that gives the count
  and every site;
- the exit hook reports the errors, and the exit status is 1 exactly when
  there are any.

`encode.js` then base64-encodes the JSON of the list. It splices the encoding
into the first `list = "<payload>"` of the redirect script, and raises one
more error when that pattern is absent.

The model has these modules:

- `Yaml` (yaml.dfy) holds parsed values and files.
- `JsText` (jstext.dfy) holds `trim`, `\s`, ASCII `toLowerCase` and decimal
  rendering.
- `Pipeline` (pipeline.dfy) is the loading stage as pure functions: a fold
  over the files and their records, over a `State` of errors, list and
  duplicate table. It also renders the error messages.
- `PipelineFacts` (pipeline_facts.dfy) proves what the loading stage
  promises.
- `Loading` (loader.dfy) has the class `Loader`. Its fields `errors`, `list`
  and `duplicates` are the scripts' module-level state, and its methods are
  the loops and statements that update them. Each method is proved to
  compute the matching `Pipeline` function.
- `Base64` (base64.dfy) is the encoding of section 4 of RFC 4648, with a
  decoder as its inverse.
- `Splice` (splice.dfy) covers the pattern `(list\s*=\s*")([A-Za-z0-9+\/=]*)(")`,
  the leftmost-match search and `replace` with `"$1" + encoded + "$3"`.
- `EncodeScript` (encode.dfy) and `CoreScript` (core.dfy) are the two
  scripts' ends: publishing and the exit hooks.

Behaviour of the code worth noting:

- A record with a valid `from` and an invalid `to` stays in the list and in
  the duplicate table.
- A missing `from` and an invalid `from` raise the same message.
- A record with a bad `from` is not checked further.
- The dict check only rejects scalars. A YAML list nested as a record passes
  it and then fails as `"from" field invalid`.
- The stored `from` is not trimmed: `" /X"` keeps its slash.

## Model

| member | source | states |
|---|---|---|
| JsText.TrimEmptyIffAllSpace | encode.js:61 | `s.trim()` is empty exactly when every character of `s` is ECMAScript white space or a line terminator. |
| JsText.ToLowerIdempotent | encode.js:71 | Lower-casing twice is lower-casing once. |
| Pipeline.Message | encode.js:52-68 | Every per-record message starts with the trace `<file> entry <n>`. |
| Pipeline.LeadingSlashes | encode.js:71 | `^(\/+)` matches the whole leading run of `/`: every character before the count is `/`, and the next one, if any, is not. |
| Pipeline.NormalizeFrom | encode.js:71 | The normalized `from` never starts with `/` and is no longer than the original. |
| PipelineFacts.NormalizeStripsLeadingRun | encode.js:71 | Normalizing is lower-casing what follows the leading `/` run of the original. |
| PipelineFacts.NormalizeIdempotent | encode.js:71 | Normalizing twice equals normalizing once (core.js:65 is the same statement). |
| PipelineFacts.NormalizeExamples | encode.js:71 | There is no trim: `" /X"` becomes `" /x"`, `"/"` becomes `""`, and `"//About"` becomes `"about"`. |
| Pipeline.Rewrite | encode.js:71 | The list entry is the record with only `from` replaced by its normalized form. It has the same keys, so no file or index is added, and every other field is unchanged. |
| Pipeline.RecordErrors | encode.js:55-68 | A record raises at most one error, and none exactly when it passes the dict, `from` and `to` checks. |
| Pipeline.RecordEntry | encode.js:61-78 | A record is filed exactly when it passes the dict and `from` checks. The filed copy carries the record's site, and its `from` is its key. |
| PipelineFacts.RecordOutcomes | encode.js:55-78 | A scalar adds only "is not a dict", and an object with a bad `from` adds only `"from" field invalid`. Neither touches the list or the table. An accepted record is appended rewritten and filed under its key, with a `"to" field invalid` error exactly when its `to` is bad (core.js:55-72 is the same code). |
| Pipeline.FileUnder | encode.js:77-78 | Filing appends the copy to its key's slot. A new key gets a slot and is listed after every existing key, and an existing key keeps its place. Every other slot is unchanged, and the table stays well formed. |
| PipelineFacts.AsWrittenLoadAgrees | encode.js:30-80 | The loading loop as written throws exactly when some accepted record, in any file, has the key `constructor` or `__proto__`. When it does not throw, it ends in the same state as the loop with the corrected filing. |
| PipelineFacts.AsWrittenFiles | core.js:24-74 | The same for the loader module's loop, from any table without an inherited key: it throws exactly when an accepted record has an inherited key, and otherwise equals the corrected loop and keeps the table free of inherited keys. |
| PipelineFacts.ConstructorFromCrashes | encode.js:77-78 | An accepted record with `from: /Constructor` has key `constructor`, and filing it as written fails. |
| PipelineFacts.FileUnderKeepsEveryRecord | encode.js:77-78 | The corrected filing keeps every record: the slot ends with it, at most one key is added, and no other key appears or disappears. |
| Pipeline.LoadRecord | encode.js:50-79 | One pass of the inner loop keeps the duplicate table well formed. |
| Pipeline.LoadItems | encode.js:50-79 | The inner loop keeps the duplicate table well formed. |
| Pipeline.LoadFile | encode.js:36-79 | One pass of the outer loop keeps the duplicate table well formed. |
| Pipeline.LoadFiles | encode.js:30-80 | The outer loop keeps the duplicate table well formed. |
| Pipeline.Reports | encode.js:88-95 | Each report is a duplicate report for one of the keys walked. |
| PipelineFacts.LoadItemsMeaning | encode.js:50-79 | The inner loop appends the file's record errors in entry order, appends its accepted records rewritten in entry order, and files those records. |
| PipelineFacts.LoadFileMeaning | encode.js:36-47 | A file adds its own errors and accepted records. A parse failure or a non-list adds one error and no record. |
| PipelineFacts.LoadFilesMeaning | encode.js:30-80 | The whole loop appends every file's errors in file order and every accepted record in file then entry order, and files those same records. |
| PipelineFacts.LoadFilesSplit | encode.js:30-80 | Loading two batches of files in a row equals loading them together. |
| PipelineFacts.BadFileSkipped | encode.js:36-47 | A file that fails to parse or is not a list adds exactly one error and no record, and the later files load as if it were absent (core.js:30-41 is the same code). |
| PipelineFacts.EntriesInPositionOrder | encode.js:50-74 | A file's accepted records come in increasing entry number. Each is the rewritten record at its position and passes both checks, and every position that passes both checks is there. |
| PipelineFacts.TabulateGroups | encode.js:77-78 | Filing records one by one groups them by key. A key has a slot exactly when some record carries it, and the slot holds those records in filing order. |
| PipelineFacts.TabulateKeyOrder | encode.js:77-78 | The table lists each key that some record carries exactly once, and no other key. Keys are in the order they were first filed: every record under a later key comes after some record under an earlier one. |
| PipelineFacts.ReportsInKeyOrder | encode.js:88-95 | The reports come in the order of the keys walked. |
| PipelineFacts.DuplicateReportsInFilingOrder | encode.js:88-95 | Across all files, the duplicate reports come in the order their keys were first filed. |
| PipelineFacts.DuplicateReportsExact | encode.js:88-95 | Walking the table reports each key filed at least twice exactly once and no other key. Each report gives the key's count and the sites of its copies in filing order. |
| PipelineFacts.LoopErrorsHaveNoDuplicates | encode.js:30-80 | The loading loop raises no duplicate report. |
| PipelineFacts.LoadSummary | encode.js:30-95 | The final list is the accepted records, rewritten, in file then entry order. The errors are the loop's errors, then "No redirects" exactly when the list is empty, then the duplicate reports (core.js:77-89 is the same code). |
| PipelineFacts.DuplicatesReportedOnce | encode.js:88-95 | Across all files, a normalized `from` gets exactly one report when two or more accepted records carry it and none otherwise. Its report states that count and every record's site in occurrence order. |
| PipelineFacts.ListCountsAcceptedRecords | core.js:44-68 | The list's length is the number of records that passed both the dict check and the `from` check. |
| Loading.Loader.constructor | encode.js:7-27 | The scripts start with no errors, an empty list and an empty duplicate table. |
| Loading.Loader.AddError | core.js:92-94 | `addError` appends exactly one error at the end and changes nothing else. |
| Loading.Loader.LoadEntry | encode.js:50-79 | The inner loop body, with its early `continue`s, changes the state exactly as `Pipeline.LoadRecord` does. |
| Loading.Loader.FileCopy | encode.js:77-78 | `??=` followed by `push` files the copy as `Pipeline.FileUnder` does. |
| Loading.Loader.LoadList | encode.js:50-79 | The loop over a list's entries, numbered from 1, changes the state as `Pipeline.LoadItems` does. |
| Loading.Loader.LoadAll | encode.js:30-80 | The loop over the files changes the state as `Pipeline.LoadFiles` does. |
| Loading.Loader.CheckEmpty | encode.js:83 | "No redirects" is appended exactly when the list is empty. The list and the table are unchanged. |
| Loading.Loader.ReportDuplicates | encode.js:88-95 | The loop over the table appends exactly `Pipeline.DuplicateReports`, skipping keys with one copy. The list is never altered. |
| Loading.Run | encode.js:30-95 | The whole loading stage on fresh state ends in `Pipeline.Load(files)`. |
| Base64.Digit | encode.js:98 | An alphabet value's character is one of `[A-Za-z0-9+/]`. |
| Base64.Encode | encode.js:98 | The encoding has four characters per started group of three bytes. |
| Base64.EncodeVectors | encode.js:98 | The test vectors of section 10 of RFC 4648: `f`, `fo`, `foo`, `foob`, `fooba` and `foobar` encode to `Zg==`, `Zm8=`, `Zm9v`, `Zm9vYg==`, `Zm9vYmE=` and `Zm9vYmFy`. |
| Base64.EncodeAlphabet | encode.js:98 | Every character of the encoding is in `[A-Za-z0-9+/=]`, the pattern's payload class. |
| Base64.DecodeEncode | encode.js:98 | Decoding the encoding gives back the bytes. |
| Splice.SkipSpaces | encode.js:109 | `\s*` consumes the maximal run of white space. |
| Splice.SkipPayload | encode.js:109 | `[A-Za-z0-9+\/=]*` consumes the maximal run of payload characters. |
| Splice.MatchAt | encode.js:109 | A match tried at a position starts there and has `list`, `=`, `"` and `"` in that order. |
| Splice.MatchAtSound | encode.js:109 | What the pattern finds at a position is a match by the declarative definition. |
| Splice.MatchAtComplete | encode.js:109 | Every match is found at its own start, so the match at a position is unique: greedy runs never need backtracking. |
| Splice.FindMatch | encode.js:112 | The search returns a match at or after the start position. |
| Splice.FindMatchLeftmost | encode.js:112 | The search finds a match exactly when one exists, and it is the leftmost. |
| Splice.FindsFirstMatch | encode.js:112 | A match that no other match precedes is the one the search returns. |
| Splice.ReplaceNoMatch | encode.js:121 | With no match the script text is unchanged. |
| Splice.ReplaceFirstMatch | encode.js:121 | With a match, only the first match's payload is replaced. The text up to and including its opening quote, and from its closing quote on, is unchanged. |
| Splice.ReplaceExample | encode.js:121 | In `x list = "ab"; list="cd"` only the first payload is replaced, and the spaces around `=` are kept. |
| Splice.ReplaceIdempotent | encode.js:121 | Splicing a payload made of payload characters twice equals splicing it once, and the splice keeps the pattern findable. |
| EncodeScript.ExitReport | encode.js:10-13 | On exit every error is reported in order, followed by the count line when there is any error. The status is 1 exactly when the error list is non-empty, that is, exactly when something is reported. |
| EncodeScript.Publish | encode.js:98-127 | The new script is the old one with the encoding of the stringified list spliced in. The errors are the loading errors plus the "not found" error exactly when the pattern is absent. The report is the exit hook's for those errors. |
| EncodeScript.PublishIdempotent | encode.js:98-124 | Publishing the same files again on the written script writes the same script, and finds the payload whenever the first run did. |
| CoreScript.ExitReport | core.js:97-107 | With errors, the status is 1, every error is logged in order and the count line equals the list length. Without errors, the status is 0 and "No errors!" is logged. |
| CoreScript.Run | core.js:24-89 | The exported list is the loaded list, and the exit report is the hook's report for the loading errors. |

## Left out

- check.js and check-broken.js are not part of this model. They fetch URLs over the network with `Promise.all` concurrency.
- File system access is left out: `globSync`, `readFileSync`, `writeFileSync`, and the uncaught read error at encode.js:32. The files are an input sequence in glob order, and the redirect script is an input string returned as the new text.
- The YAML parser is an input. Each file comes already parsed, or as a parse failure.
- `JSON.stringify` and the UTF-8 conversion of `Buffer.from` are a parameter `stringify` of `EncodeScript.Publish`.
- EncodeScript.Publish: the order of a record's properties is not modelled. `Yaml.Fields` is a map, but `JSON.stringify` writes properties in insertion order, so two files that differ only in key order give different payloads in the script and the same input to `stringify` here.
- Console output is left out: colours, `log`, and the `RUNNER_DEBUG` verbose logging. The exit hooks are functions from the error list to the status and the reported lines.
- Null records are excluded by the precondition `NullFree`. `typeof null` is `"object"`, so the script passes one to the `from` check, where it throws.
- YAML aliases are not modelled: values are trees. With an alias, the script meets the same object twice. It has already rewritten that object's `from`, so a `from` made only of slashes would fail the `from` validation on the second visit.
- The key order of `Object.entries` is not modelled for integer-like keys. JavaScript lists those first, and the duplicate table here keeps insertion order for every key.
- `toLowerCase` is modelled on ASCII letters only. `trim` and `\s` use the full ECMAScript white space and line terminator set.
- Pipeline.Message: its contract only states the trace prefix of per-record messages. The full texts are its body.
- Splice.Replace: takes the payload literally. JavaScript would read a `$` in the replacement as a pattern, but an encoding never contains `$`. A leading digit after `$1` would make `$1d`, which is not a group among three, so JavaScript reads `$1` and a literal digit.
- A record whose key is inherited from `Object.prototype` makes the scripts throw (see Findings). The loading stage in `Loading` and `Pipeline` uses the corrected filing. `Pipeline.LoadAsWritten` keeps the throwing one, and `Loading` has no method for it.

## Findings

| source | as written | input that shows it | evidently intended | confidence | as-written member | corrected member |
|---|---|---|---|---|---|---|
| encode.js:77-78 | `duplicates[entry.from] ??= []` on a `{}` table keeps the inherited `Object.prototype` value for `constructor` and `__proto__`, and the following `.push` throws a TypeError that ends the script | a file with the one record `{from: "/Constructor", to: "https://example.org"}` | every accepted record is filed under its own key | not executed | Pipeline.LoadAsWritten (shown by PipelineFacts.ConstructorFromCrashes and PipelineFacts.AsWrittenLoadAgrees) | Pipeline.FileUnder (PipelineFacts.FileUnderKeepsEveryRecord) |
| core.js:71-72 | the same filing statements in the loader module | the same record | the same | not executed | Pipeline.LoadFilesAsWritten (shown by PipelineFacts.AsWrittenFiles) | Pipeline.FileUnder (PipelineFacts.FileUnderKeepsEveryRecord) |
