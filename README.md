# Font subsetter core, modelled in Dafny

The web font subsetter takes a font and a choice of codepoints and produces
one or more subset fonts, a CSS `@font-face` block per subset and a summary
of the files. This project models its sequential core and proves what that
core promises:

- **Codepoint partitioning** (`Partition`). `splitCodepoints` dispatches to
  one of two splitters:
  - `splitByUnicodeRange` sorts the input and scans it once. A value joins
    the current group when it is the group's last value plus one, or lies
    in the same 1024-wide block as that value.
  - `splitByCharacterCount` cuts consecutive slices.

  app.js, process-font.js and font-worker.js carry copies of these that
  agree line for line, and all three are modelled by the same members.
  app.js also has a batched version that scans 1000 values per timer slice.
  It is proved to give the same groups as the one-pass version.
- **Codepoint selection** (`Selection`). `getCodepointsByStrategy` applies
  fixed range filters. `parseCustomRange` splits a `U+XXXX, U+XXXX-YYYY`
  list and parses each token with JavaScript's `parseInt(…, 16)`. It keeps
  only the available codepoints and removes duplicates. JavaScript's
  `trim`, `split`, `String.replace` of a string and `parseInt` are
  modelled explicitly.
- **The `unicode-range` text** (`UnicodeRange`). `generateUnicodeRange`
  writes one item per maximal run of the sorted codepoints, as uppercase
  hexadecimal padded to four digits. This follows the `unicode-range`
  descriptor of section 4.5 of CSS Fonts Module Level 3. The text is proved
  to parse back through `parseCustomRange` to the codepoints it came from.
- **Output** (`Output`, `Assembly`):
  - the CSS rules;
  - the file summary (`generateFileInfo`);
  - re-aligning subset results with their groups by index after the
    parallel run.
- **The worker pool** (`Pool`). `FontWorkerPool` is a class whose methods
  update the workers' `busy` flags, the FIFO task queue, the map of active
  tasks and the task-id counter. Each method is proved against a function
  on the pool state. The invariant that every method keeps is: a worker is
  busy exactly when one active task names it, and task ids are fresh.
- **The worker script** (`FontWorker`). It models:
  - the cached font that `parseFont` sets and `clearCache` clears;
  - the reply to each message, where a `createSubset` reply always echoes
    its `taskId`;
  - the glyph selection loop of `createSubsetFont`.
- **Localisation** (`I18n`, `I18nTables`). It models:
  - the Chinese and English message tables, as constant maps;
  - `I18nManager`'s lookup with fallback to the key;
  - `{name}` placeholder substitution;
  - the language switch.

Browser and Node facilities are parameters of the model:
- the font parser and serialiser (opentype.js);
- `navigator.hardwareConcurrency`;
- whether creating a worker succeeded;
- the stored language.

## Model

| member | source | states |
|---|---|---|
| Sorting.SortAsc | app.js:1217 | the numeric sort gives an ascending sequence that is a permutation of the input |
| Sorting.SortBy | app.js:967 | sorting by a key gives a sequence ordered by that key that is a permutation of the input |
| Sorting.SortedUnique | app.js:1217 | two ascending sequences with the same elements are equal, so the sorted order of a list is fully determined |
| Sorting.SortedDistinctIsStrict | app.js:1396 | sorting a duplicate-free list gives a strictly increasing one |
| Partition.ScanResume | app.js:1172-1207 | scanning `a + b` from a state equals scanning `a` and then resuming on `b`, which is what a batch boundary does |
| Partition.StepKeeps | app.js:1231-1236 | one step of the by-range loop keeps the closed groups well formed, and their concatenation grows by exactly the scanned value |
| Partition.ScanKeeps | app.js:1221-1241 | the whole by-range loop keeps the groups well formed, and their concatenation grows by exactly the scanned values |
| Partition.RangeGroupsSound | font-worker.js:178-206 | the by-range groups are non-empty; inside a group neighbours differ by one or share a 1024-block; across a boundary neither holds; they concatenate to the input; empty input gives no groups |
| Partition.RangeGroupsUnique | font-worker.js:190-198 | any grouping of a sequence with those properties is the one the scan produces: a boundary occurs exactly where the joining rule fails |
| Partition.RangeGroupsSnoc | font-worker.js:193-198 | appending a value extends the last group when it joins that group's last value, and otherwise opens a new singleton group |
| Partition.SplitByUnicodeRange | app.js:1213-1245 | the loop returns the by-range groups of the numerically sorted input |
| Partition.ProcessBatch | app.js:1172-1190 | one batch, from its start index to its end index, leaves the scan state it would have after scanning that slice |
| Partition.ScanInBatches | app.js:1164-1207 | running the batches of 1000 until the end gives the state of one uninterrupted scan |
| Partition.SplitByUnicodeRangeAsync | app.js:1153-1210 | the batched split returns exactly the groups of the synchronous split |
| Partition.SplitByRangeSpec | process-font.js:173-201 | the groups are empty iff the input is; they concatenate to the sorted input, a permutation of the input; they are well formed and are the only well-formed grouping of it |
| Partition.ChunksFlatten | process-font.js:206-212 | the by-count slices concatenate back to the input |
| Partition.ChunksShape | font-worker.js:209-215 | there are ceil(n / maxCount) slices; all but the last have maxCount values; the last has between 1 and maxCount |
| Partition.SplitByCharacterCount | app.js:1247-1253 | the slicing loop returns the consecutive slices of length maxCount |
| Partition.SplitCodepoints | font-worker.js:161-175 | `byRange` and `byCount` go to the matching splitter, with the message's split count; any other strategy gives the single group `[codepoints]`; the groups are always a permutation of the input, and equal to it outside `byRange` |
| Selection.TrimStart | process-font.js:126 | removes exactly the leading JavaScript whitespace |
| Selection.TrimEnd | process-font.js:126 | removes exactly the trailing JavaScript whitespace |
| Selection.Trim | process-font.js:124 | the trimmed text is empty iff the string is all whitespace; otherwise it starts and ends with a non-space; a string without edge whitespace is unchanged |
| Selection.Split | process-font.js:126 | `split(',')` gives at least one piece; no piece holds the separator; joining with it gives the string back; there are two or more pieces iff the separator occurs |
| Selection.SplitJoin | process-font.js:126 | splitting the join of separator-free pieces returns those pieces |
| Selection.RemoveFirstAt | process-font.js:132 | `replace('U+', '')` removes only the first occurrence of `U+` |
| Selection.RemoveFirstAbsent | process-font.js:141 | `replace('U+', '')` leaves a string without `U+` unchanged |
| Selection.HexPrefixLength | process-font.js:132 | `parseInt(…, 16)` reads the longest run of hexadecimal digits: all before it are digits, the one after it is not |
| Selection.Filter | process-font.js:99-103 | a filter keeps every occurrence of an element that passes, and none of the others |
| Selection.FilterAppend | process-font.js:99-103 | filtering a concatenation is concatenating the filtered parts, so the filter keeps the input order |
| Selection.GetCodepointsByStrategy | process-font.js:93-118 | `common` and `chinese` keep exactly the available codepoints in their fixed ranges, with multiplicity; `custom` parses the custom range; `all` and unknown strategies return the input |
| Selection.RangeHits | process-font.js:135-139 | a `U+S-E` token yields every available codepoint from S to E, ascending and once each, and nothing when S > E |
| Selection.Tokens | process-font.js:126 | there is one trimmed token per comma-separated piece |
| Selection.Dedupe | process-font.js:148 | `[...new Set(result)]` has no duplicates and the same members as the input |
| Selection.DedupeKeepsFirstOrder | process-font.js:148 | duplicates are removed in the order of each value's first occurrence |
| Selection.DedupeOfDistinct | process-font.js:148 | a list without duplicates is returned unchanged |
| Selection.CustomRangeSpec | process-font.js:123-149 | a blank string gives no codepoints; the result is duplicate-free and only holds available codepoints; it holds exactly the hits of the tokens, in first-hit order |
| Selection.PushRange | app.js:1103-1107 | the range loop pushes exactly the available codepoints of the range, ascending |
| Selection.PushToken | app.js:1097-1114 | the token branch pushes the range's hits for a token with `-`, and for any other token the single codepoint when it is available |
| Selection.PushTokens | app.js:1096-1115 | the token loop pushes the hits of every token, in token order |
| Selection.ParseCustomRange | app.js:1090-1118 | the imperative parser returns the custom-range result, with the properties stated in CustomRangeSpec |
| UnicodeRange.HexChar | app.js:1408 | each digit value is written as an uppercase hexadecimal digit of that value |
| UnicodeRange.UpperHex | app.js:1408 | `toString(16).toUpperCase()` is non-empty, made of uppercase digits, without a leading zero |
| UnicodeRange.UpperHexValue | app.js:1408 | the uppercase hexadecimal text reads back as the number |
| UnicodeRange.PadStart4 | app.js:1408 | `padStart(4, '0')` leaves texts of four or more characters alone and left-pads shorter ones with zeros to exactly four |
| UnicodeRange.Hex4Digits | app.js:1408 | a padded codepoint has at least four uppercase digits and reads back as the codepoint |
| UnicodeRange.Hex4Parse | process-font.js:132 | `parseInt` in base 16 reads a padded codepoint back exactly |
| UnicodeRange.RunsSpec | process-font.js:266-295 | the runs of a strictly increasing list are maximal, are empty iff the list is, and expand back to the list |
| UnicodeRange.Items | process-font.js:278-292 | one item per run, each written `U+XXXX` for a single value and `U+XXXX-YYYY` for a span |
| UnicodeRange.RunsStep | app.js:1404-1414 | a value that follows the run extends it; any other value closes the run and starts a new one |
| UnicodeRange.GenerateUnicodeRange | app.js:1392-1425 | the loop returns `U+0000-FFFF` for no codepoints, and otherwise the items of the maximal runs of the sorted input joined by `", "` |
| UnicodeRange.ItemShape | app.js:1408-1410 | an item starts with `U`, ends with a hex digit, has no comma, and has a `-` only when it is a span |
| UnicodeRange.SingleItemHits | process-font.js:141-144 | the token `U+XXXX` selects its codepoint exactly when that is available |
| UnicodeRange.SpanItemHits | process-font.js:130-139 | the token `U+XXXX-YYYY` selects exactly the available codepoints from XXXX to YYYY |
| UnicodeRange.AllHitsOfItems | process-font.js:129-146 | parsing the items of maximal runs whose values are all available yields exactly those values, in order |
| UnicodeRange.TokensOfJoined | process-font.js:126 | splitting the `", "`-joined items at commas and trimming returns the items |
| UnicodeRange.RoundTripSorted | process-font.js:123-149 | parsing the text of a strictly increasing available list returns that list |
| UnicodeRange.RoundTrip | process-font.js:266-295 | for a non-empty duplicate-free list of available codepoints, `parseCustomRange(generateUnicodeRange(S))` is S sorted, so it has the same members as S |
| Output.DecimalRoundTrip | app.js:1437 | the decimal text of the file number reads back as that number |
| Output.DecimalInjective | app.js:1437 | different numbers have different decimal texts |
| Output.SubsetNamesDistinct | app.js:1437 | two subset files never share a name |
| Output.GenerateFileInfo | app.js:1427-1448 | the file count is the number of subsets; the total is the number of codepoints over all subsets; entry i holds the name, count and range text of subset i |
| Output.FileInfoConsistent | app.js:1443-1447 | the total equals the sum of the entries' counts, and the entry names are distinct |
| Output.CountSumOfEntries | app.js:1432-1433 | the running total is the sum of the group sizes |
| Output.FaceRule | process-font.js:307-314 | a rule is a block that opens with `@` and closes with `}` |
| Output.Rules | process-font.js:303-305 | there is one rule per subset, and rule i names the URL and range text of subset i |
| Output.GenerateCss | process-font.js:300-320 | the CSS is the subsets' rules in order, separated by blank lines, with no trailing whitespace |
| Output.CssStep | process-font.js:307-316 | each appended block keeps the text equal to the rules so far plus a blank line |
| Output.CssDone | process-font.js:319 | trimming the accumulated text leaves the rules joined by blank lines |
| Output.TrimTrailingSpace | process-font.js:319 | `trim` removes trailing whitespace after a text that starts and ends with a non-space |
| Assembly.AssembleFontFiles | app.js:968-974 | font file i carries group i and index i |
| Assembly.AssembleAligned | app.js:964-974 | when each group has one result, the file at a result's index holds that result's buffer and the codepoints of the group it was made from |
| Assembly.SortedIndicesAreRanks | app.js:967 | after sorting by index, the result at position k has index k |
| Assembly.IndicesDistinctAfterSort | app.js:967 | no two sorted results share an index |
| Pool.PoolSize | app.js:181-183 | the pool size is `min(requested ‖ hardwareConcurrency ‖ 4, 8)`, with 0 and absence both falling through |
| Pool.PoolSizeRange | app.js:181-183 | with non-negative inputs, the pool has between 1 and 8 workers |
| Pool.FindIdle | app.js:350 | `find(w => !w.busy)` gives the first idle worker, and nothing exactly when all are busy |
| Pool.CreatedWorkers | app.js:203-222 | the started workers are idle, their ids are below the pool size and increasing, and each was created |
| Pool.CreatedWorkersComplete | app.js:203-222 | every worker whose creation succeeded is in the pool |
| Pool.ExecKeepsValid | app.js:359-367 | dispatching to an idle worker keeps the pool invariant: one job per worker, busy iff named by an active task, ids fresh |
| Pool.ExecFresh | app.js:361-367 | all active ids are below the counter; dispatch adds exactly the old counter as an id and increments the counter by one |
| Pool.NextKeepsValid | app.js:346-356 | draining one task keeps the pool invariant |
| Pool.NextSpec | app.js:346-356 | with a queued task and an idle worker, the queue head and only it goes to the first idle worker, under the old counter as its id, and the counter rises by one; otherwise nothing changes |
| Pool.SubmitSpec | app.js:395-400 | with an idle worker the submitted task becomes active at once on the first idle worker, under the old counter as a fresh id; the other entries and the queue are unchanged and that worker turns busy; with every worker busy the task is appended to the queue and nothing else changes; the invariant is kept |
| Pool.SubmitKeepsSaturated | app.js:395-400 | if a task waits only while all workers are busy, that stays true after a submission |
| Pool.SettleKeepsValid | app.js:309-316 | settling a known task keeps the pool invariant |
| Pool.StaleReplyIgnored | app.js:307-322 | a reply whose task id is missing or unknown leaves the whole state unchanged |
| Pool.ReplySpec | app.js:304-330 | a known reply removes its entry, records the matching resolve or reject outcome for that task, and leaves every other active entry as it was; with an empty queue its worker ends idle and nothing else changes; otherwise the queue head, and only it, becomes active under the old counter on the first idle worker (at or before the freed one); the invariant and "a task waits only while all are busy" are kept |
| Pool.SettledDrainSaturated | app.js:309-327 | freeing a worker and draining once restores "a task waits only while all are busy" |
| Pool.CrashedTaskUnique | app.js:336-337 | at most one active task runs on a given worker |
| Pool.CrashSpec | app.js:333-343 | a crash removes exactly the tasks on that worker and frees it; other tasks, other workers and the queue are untouched; the worker stays in the pool |
| Pool.CrashStrandsQueue | app.js:333-343 | a crash on the only busy worker, with a task queued, leaves an idle worker beside a waiting task |
| Pool.CrashThenDrainSaturated | app.js:333-343 | a crash followed by one drain keeps the invariant and "a task waits only while all are busy" |
| Pool.InitKeepsValid | app.js:258-268 | start-up keeps the invariant; the pool is initialised iff it already was or start-up succeeds; on success the workers are those created; on failure there are none |
| Pool.InitOkMeaning | app.js:225-261 | a new pool starts exactly when every worker whose creation succeeded loads the font; when no worker could be created, the promise list is empty and the pool starts with no workers |
| Pool.AwaitLoads | app.js:259 | waiting on one load per worker succeeds exactly when every worker loads the font |
| Pool.CreateWorkers | app.js:203-256 | the creation loop keeps one idle record per successfully created index, and reports whether all of them load the font |
| Pool.TerminateKeepsValid | app.js:405-411 | after `terminate` the pool is empty and valid |
| Pool.FontWorkerPool.constructor | app.js:178-189 | a new pool has the computed size, no workers, no tasks, counter 0 and is not initialised |
| Pool.FontWorkerPool.Initialize | app.js:192-268 | the state becomes the start-up result and the invariant holds; the call succeeds iff every worker it waits on loads the font (the workers it creates for a new pool, its own workers for a started one) |
| Pool.FontWorkerPool.ExecuteTask | app.js:359-380 | the state becomes the dispatch result and the returned id is the old counter |
| Pool.FontWorkerPool.ProcessNextTask | app.js:346-356 | the state becomes the one-step drain of the old state, whose effect NextSpec states |
| Pool.FontWorkerPool.CreateSubset | app.js:383-402 | the state becomes the submission result; the invariant and "a task waits only while all are busy" are kept |
| Pool.FontWorkerPool.HandleWorkerMessage | app.js:304-330 | the state becomes the reply result; the invariant and "a task waits only while all are busy" are kept |
| Pool.FontWorkerPool.Complete | app.js:309-316 | a known reply settles the task, frees its worker, drops the entry and drains once |
| Pool.FontWorkerPool.HandleWorkerError | app.js:333-343 | the loop over active tasks leaves the crash result, whatever order it visits them in, and keeps the invariant |
| Pool.FontWorkerPool.TerminatePool | app.js:405-411 | the state becomes the emptied pool, which is valid |
| Pool.CrashVisit | app.js:336-342 | visiting one more active task keeps the loop's progress invariant |
| Pool.CrashDone | app.js:336-342 | once every task has been visited, the state is the crash result |
| FontWorker.MappedCodepoints | font-worker.js:67-73 | the reported codepoints are exactly the defined glyph codepoints, at most one per glyph |
| FontWorker.ListCodepoints | font-worker.js:67-73 | the collecting loop returns the defined glyph codepoints in glyph order |
| FontWorker.Kept | font-worker.js:231-245 | glyph 0 comes first and once, the rest strictly increase, and after it come exactly the glyphs i ≥ 1 whose codepoint is defined and requested |
| FontWorker.SelectGlyphs | font-worker.js:227-245 | the loop's glyph list is the kept glyphs; the index map sends each kept glyph to its position, sends 0 to 0 and is injective |
| FontWorker.IndexMapInjective | font-worker.js:243 | a map from each listed glyph to its position sends different glyphs to different positions |
| FontWorker.CreateSubsetFont | font-worker.js:218-279 | with no cached font it fails with "font not loaded"; otherwise it serialises the selected subset |
| FontWorker.FormatIgnored | font-worker.js:267-276 | the output format never changes the bytes produced |
| FontWorker.TaskIdEcho | font-worker.js:105-133 | a `createSubset` reply, success or error, carries the request's `taskId` (and on success its index and total), and the cache is unchanged |
| FontWorker.ClearedCacheFails | font-worker.js:135-140 | after `clearCache` every `createSubset` replies with the "font not loaded" error and its `taskId` |
| FontWorker.ParseFontCaches | font-worker.js:54-91 | a successful parse caches that font and buffer and reports its glyph count and every mapped codepoint; a failed one leaves the cache alone and replies with the error |
| FontWorker.WorkerScope.constructor | font-worker.js:45-46 | the worker starts with no cached font, no buffer and no replies |
| FontWorker.WorkerScope.HandleMessage | font-worker.js:49-158 | the listener updates the cache and posts exactly one reply, both as the handler's response function defines |
| FontWorker.WorkerScope.CreateSubsetFontMethod | font-worker.js:218-279 | the method with its selection loop returns what `createSubsetFont` specifies for the current cache |
| I18n.Placeholder | i18n.js:210 | the placeholder is the name wrapped in `{` and `}` |
| I18n.OpenFreeKept | i18n.js:210 | replacing a placeholder leaves a prefix without `{` unchanged |
| I18n.ReplaceAround | i18n.js:210 | a global replacement of `{a}` replaces a `{b}` placeholder iff a = b, and works independently on the text either side |
| I18n.UnsuppliedKept | i18n.js:208-212 | a placeholder with no supplied param is left verbatim, and the text around it is substituted as usual |
| I18n.FillOne | i18n.js:208-212 | a text with one `{name}` and a value for `name` becomes the text with the value in its place |
| I18n.LastAcceptedWins | i18n.js:218-227 | after a sequence of language switches, the language is the last accepted one, or the starting one when none was accepted |
| I18n.I18nManager.constructor | i18n.js:197-201 | the language is the stored one when it is non-empty, else `en`; an unknown language uses the English table |
| I18n.I18nManager.T | i18n.js:204-215 | the text is the stored string, or the key when that is missing or empty, with each param substituted in turn; with no params it is the looked-up string unchanged |
| I18n.I18nManager.SetLanguage | i18n.js:218-227 | it returns true iff the language has a table; if so both the language and the table are set; otherwise neither changes |

## Left out

- I18n.I18nManager.T: param names are matched literally. The source builds a regular expression from the name, so the model does not cover names holding regular-expression metacharacters.
- I18n.I18nManager.T: `$` patterns in replacement values are not expanded.
- I18n.I18nManager.T: params are given as a list in `Object.keys` order, and a non-object `params` is modelled as the empty list.
- I18n.I18nManager.constructor: `i18n[lang]` is looked up among the own keys `zh` and `en` only. Names inherited from `Object.prototype` are not modelled.
- I18n.I18nManager.SetLanguage: the `localStorage` write and the call to `updatePage` are not modelled, as they are browser I/O and DOM rendering.
- The message tables are constant data. That both tables have the same keys and no empty strings is not proved.
- `getLanguage` is a plain read (`I18nManager.GetLanguage`). Its relation to the last accepted switch is stated by `LastAcceptedWins` and `SetLanguage`.
- `updatePage`, the log, progress and preview rendering, the demo page and the ZIP download are not modelled: they are DOM and file output.
- Pool.FontWorkerPool.Initialize: the model takes as parameters whether each `new Worker` call succeeds and whether each worker answers its `parseFont` with `fontParsed`. `new Worker`, `postMessage`, promises and the 30 s timeout are not modelled.
- `updateFontBuffer` (re-parsing fonts in a started pool) is modelled only by its outcome: the call succeeds iff every worker loads the font, and the state is unchanged. Its messages and its 10 s timeout are not modelled.
- Tasks submitted before `initialize` succeeds are not modelled: the invariant states that an uninitialised pool has no workers.
- Pool.PoolSize follows the code, `min(requested ‖ hardwareConcurrency ‖ 4, 8)`. It does not clamp to at least one: a negative request gives a negative size and no workers.
- Promise resolution and rejection are recorded as an `outcomes` list instead of calling back into the caller.
- opentype.js parsing and `toArrayBuffer` are parameters; a font is its glyphs' optional codepoints plus the names and metrics read from it.
- Partition.SplitCodepoints: the `byCount` strategy with a count below one is not modelled. On non-empty input the source loops forever for 0 or a negative count. A `NaN` count, which `parseInt` gives for an empty or non-numeric field, yields `[[]]`: one empty group. On empty input every count yields `[]`.
- Selection.GetCodepointsByStrategy: its own contract states which elements are kept and how often. That they keep the input order is stated by FilterAppend.
- Selection.ParseCustomRange: `parseInt` is exact on unbounded integers. Hexadecimal values above 2^53, where JavaScript loses precision, are not modelled.
- UnicodeRange.RoundTrip: requires a non-empty list. For no codepoints the text is `U+0000-FFFF`, which parses to every available codepoint up to FFFF.
- UnicodeRange.RoundTrip: requires non-negative codepoints, as codepoints are.
- The orchestration of `generateSubset`, other than the index re-sort, is not modelled. Neither is its single-worker fallback, nor the floating-point progress percentages.
- The command-line driver of process-font.js is not modelled: argument parsing, the HTTP download, file writes and `process.exit`.
- temp_fix_app.py is not part of this model.

## Findings

| source | as written | input that shows it | evidently intended | confidence | as-written member | corrected member |
|---|---|---|---|---|---|---|
| app.js:333-343 | `handleWorkerError` frees the crashed worker but does not call `processNextTask` | a pool with one worker, busy with one task, and one more task in the queue; the worker crashes | the freed worker picks up the queue head, as after a normal completion, so a task never waits beside an idle worker | not executed | Pool.CrashStrandsQueue | Pool.CrashThenDrainSaturated |
