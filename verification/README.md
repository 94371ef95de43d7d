# Chat-threshold conversion dispatch, modelled in Dafny

This project models the idempotent event dispatch at the heart of the
`cron-meta-schedule` service. A scheduled handler reads analytics rows (one per
chat session). It keeps the rows whose phone number normalises to E.164, is not
a test number, and has more than five messages sent. It drops every row whose
ledger key (`capi:chat-threshold:<experiment>:<session>`) is already stored, and
builds one Conversions API event per remaining row. The phone reaches the event
only as a SHA-256 digest. The handler sends the whole batch once, with three
attempts and exponential backoff. Only after the send succeeds does it write the
ledger keys.

Modules, following the source layout:

- `Results` (`results.dfy`): `Option` and `Result`.
- `JsText` (`js_text.dfy`): the JavaScript string primitives the code relies on: `trim`, ASCII `toLowerCase`, and `split`/`join` on one character.
- `Capi` (`capi.dfy`): the helpers of `lib/capi.ts`: `sha256LowerHex`, `normalizePhoneToE164`, `eventIdFor`, `isTestNumber`.
- `Retries` (`retries.dfy`): `withRetries`. The action is a function from call index to outcome. The result records how the call settled, how many calls were made and the backoff delays slept.
- `ChatThresholdCron` (`cron.dfy`): `handler` and its ledger keys. It covers the filter, the build loop with its `sessionToExperiment` map, the send and the `markFired` commit loop.
- `CronProperties` (`cron_properties.dfy`): theorems about whole runs (replay safety, failure behaviour, scenarios).
- `CronExamples` (`examples.dfy`): concrete values.

Inputs the code takes from the outside world are parameters:

- the analytics fetch and the Meta send are attempt functions;
- the ledger is a set of keys, with per-key maps of the store errors thrown by EXISTS and SET;
- the SHA-256 hex digest is an arbitrary function `digest`;
- the clock is one `now` (milliseconds) per run.

Behaviour worth knowing:

- **No same-run collapse.** Two rows with the same session and experiment in one run give two events with the same event id, and one ledger write. The ledger is only read during the build loop, so the second row is not recognised as fired. A row repeated verbatim gives two identical events (`DuplicateRowBatch`, `DuplicateRowSentTwice`).
- **The commit map is keyed by session only.** A session seen under two experiments in one run sends both events but writes only the later experiment's key. The next run therefore sends the earlier event again. See `ExperimentSwitchRefires`.
- **The hashed identity keeps the country code.** Only the leading `+` is stripped: `+15550001111` hashes `15550001111`. See `HashOfE164Digits` and `PhoneOnlyReachesEventAsDigest`.
- **Ids are not injective for labels holding `:`.** Event ids and ledger keys are plain concatenations, so a label containing `:` can collide with another session's id. See `EventIdCollidesOnColonLabel`. Without `:` they are injective (`EventIdInjective`).
- **A failed ledger check fails closed.** A throwing EXISTS aborts the run with 500 before anything is sent (`CheckFailureSendsNothing`).
- **The commit is not all-or-nothing.** `markFired` runs key by key and stops at the first SET that throws. Keys written before it stay written, and the run answers 500 (`CommitMarks`).

## Model

| member | source | states |
|---|---|---|
| JsText.Trim | lib/capi.ts:9 | `trim` never lengthens a string and leaves no whitespace at either end |
| JsText.TrimDecompose | lib/capi.ts:9 | every string is its trim with whitespace before and after it |
| JsText.TrimStartDecompose | lib/capi.ts:9 | leading whitespace is exactly what `trimStart` removes |
| JsText.TrimEndDecompose | lib/capi.ts:9 | trailing whitespace is exactly what `trimEnd` removes |
| JsText.TrimStartSkips | lib/capi.ts:9 | whitespace in front of a string does not change `trimStart` |
| JsText.TrimEndSkips | lib/capi.ts:9 | whitespace after a string does not change `trimEnd` |
| JsText.TrimOfPadded | lib/capi.ts:9 | a bordered core padded with whitespace trims back to that core |
| JsText.TrimIdempotent | pages/api/capi/chat-threshold-cron.ts:125-126 | trimming twice equals trimming once, so `eventIdFor` re-trimming the already-trimmed experiment changes nothing |
| JsText.TrimIgnoresPadding | lib/capi.ts:4 | extra whitespace around any string leaves its trim unchanged |
| JsText.TrimKeepsAbsent | lib/capi.ts:22 | trimming never introduces a character, so a trimmed list entry holds no comma |
| JsText.TrimNoWhitespace | lib/capi.ts:9 | a string without whitespace is its own trim |
| JsText.LowerChar | lib/capi.ts:4 | `toLowerCase` on one character leaves no ASCII capital, keeps whitespace as whitespace (and nothing else becomes whitespace), and leaves every non-capital alone |
| JsText.LowerIdempotent | lib/capi.ts:4 | lower-casing twice equals lower-casing once |
| JsText.LowerAscii | lib/capi.ts:4 | lower-casing keeps the length and maps each position independently |
| JsText.LowerWithoutUpper | lib/capi.ts:4 | a string without ASCII capitals is unchanged by lower-casing |
| JsText.LowerDistributes | lib/capi.ts:4 | lower-casing a concatenation lower-cases each part |
| JsText.LowerCommutesWithTrim | lib/capi.ts:4 | `trim().toLowerCase()` equals `toLowerCase().trim()` |
| JsText.LowerKeepsWhitespace | lib/capi.ts:4 | lower-casing keeps whitespace as whitespace |
| JsText.LowerKeepsBordered | lib/capi.ts:4 | lower-casing a trimmed string keeps it trimmed |
| JsText.Split | lib/capi.ts:22 | `split(",")` yields at least one piece, no piece holds the separator, and joining the pieces gives back the input |
| JsText.SplitNoSeparator | lib/capi.ts:22 | a string without the separator splits into itself alone |
| JsText.SplitPiece | lib/capi.ts:22 | a separator-free prefix followed by the separator splits off as the first piece |
| JsText.SplitJoin | lib/capi.ts:22 | split inverts join when no part holds the separator |
| JsText.SeparatorSplitUnique | lib/capi.ts:17 | a string `a + ":" + x` with `:` not in `a` determines `a` and `x` |
| Capi.Sha256LowerHex | lib/capi.ts:3-5 | the token is the digest of the trimmed, lower-cased input; its properties are the lemmas below |
| Capi.HashStepsCommute | lib/capi.ts:4 | trimming then lower-casing hashes the same as lower-casing then trimming |
| Capi.HashIgnoresPadding | lib/capi.ts:3-5 | whitespace around the input never changes `sha256LowerHex` |
| Capi.HashIgnoresAsciiCase | lib/capi.ts:3-5 | inputs that lower-case alike hash alike |
| Capi.KeepDigitsAndPlus | lib/capi.ts:11 | the result is no longer than the input, holds only digits and `+`, and keeps a leading digit or `+` |
| Capi.KeepDigitsAndPlusFixes | lib/capi.ts:11 | a string of digits and `+` is left unchanged |
| Capi.KeepDigitsAndPlusAppend | lib/capi.ts:11 | the replace works piecewise over a concatenation |
| Capi.KeepDigitsAndPlusDrops | lib/capi.ts:11 | a string without digits or `+` is erased |
| Capi.NormalizePhoneToE164 | lib/capi.ts:7-13 | every accepted number matches `^\+\d{8,16}$` |
| Capi.NormalizeCases | lib/capi.ts:7-13 | a missing or empty number is rejected; a trimmed number without leading `+` is rejected; an accepted number is the digits-and-plus residue of the trimmed input; that residue is accepted exactly when it matches the pattern |
| Capi.IsE164 | lib/capi.ts:12 | the reference definition of `^\+\d{8,16}$`: 9 to 17 characters, a `+`, then only digits; `NormalizePhoneToE164` accepts exactly the residues it holds for (`NormalizeCases`) |
| Capi.E164HasNoWhitespace | lib/capi.ts:12 | an E.164 string contains no whitespace |
| Capi.NormalizeFixesE164 | lib/capi.ts:7-13 | an E.164 number normalises to itself |
| Capi.NormalizeIdempotent | lib/capi.ts:7-13 | normalising a normalised number changes nothing |
| Capi.StripLeadingPlus | pages/api/capi/chat-threshold-cron.ts:130 | `replace(/^\+/, "")` removes exactly one leading `+` and otherwise returns the input |
| Capi.HashOfE164Digits | pages/api/capi/chat-threshold-cron.ts:130 | for an E.164 number the phone token is the digest of every digit after the `+`, country code included |
| Capi.DefaultLabelIsTrimmed | lib/capi.ts:16 | the fallback label `default` is its own trim |
| Capi.EffectiveLabel | lib/capi.ts:16 | the label is never empty and never padded; it is the trimmed label when that is non-empty and `default` otherwise |
| Capi.EventIdFor | lib/capi.ts:15-18 | every id starts with the `chat-threshold:` namespace, ends with `:` and the session, and holds a non-empty label between them |
| Capi.EventIdInjectiveInSession | lib/capi.ts:15-18 | under one label, distinct sessions get distinct event ids |
| Capi.EventIdInjective | lib/capi.ts:15-18 | for labels without `:`, equal event ids mean equal session and equal effective label |
| Capi.EventIdCollidesOnColonLabel | lib/capi.ts:15-18 | session `b:c` under label `a` and session `c` under label `a:b` share one event id |
| Capi.EventIdIgnoresLabelPadding | lib/capi.ts:16 | whitespace around the label does not change the event id |
| Capi.IsTestNumber | lib/capi.ts:20-24 | a missing or empty list lists nothing; a listed number is not blank after trimming |
| Capi.TestEntries | lib/capi.ts:22 | each entry is non-empty, trimmed and free of commas, and every piece of the comma split that is not blank after trimming is an entry |
| Capi.TestListMembership | lib/capi.ts:20-24 | a number is a test number exactly when some non-blank trimmed entry of the comma-separated list equals its trim |
| Capi.ListedNumberHasEntry | lib/capi.ts:20-24 | a number reported as listed has a matching entry |
| Capi.EntryListsNumber | lib/capi.ts:20-24 | a number with a matching entry is reported as listed |
| Retries.Pow2 | lib/capi.ts:45 | `Math.pow(2, i)` is at least 1 |
| Retries.RetryFrom | lib/capi.ts:40-49 | from iteration `i`: a value comes from the last call and all calls before it threw; a throw happens only after the budget is spent and rethrows the last error, or `lastErr` if there was no call; one delay of `base * 2^k` follows each failed call |
| Retries.WithRetries | lib/capi.ts:34-50 | never more calls than attempts, and at least one call when attempts is positive |
| Retries.WithRetriesSemantics | lib/capi.ts:34-50 | settles with a value exactly when some call within the budget returns, and that value is the first success; otherwise every call threw and the last error (or `undefined` when no attempt was allowed) is rethrown; the delays are `base * 2^k`, one per failed call |
| Retries.DefaultScheduleWhenAllFail | lib/capi.ts:36-37 | with the defaults and three failures there are three calls, delays of 400, 800 and 1600 ms, and the third error is rethrown |
| Retries.StopsAtFirstSuccess | lib/capi.ts:40-42 | the first success within the budget is returned after `k + 1` calls and `k` delays |
| ChatThresholdCron.ErrorMessage | pages/api/capi/chat-threshold-cron.ts:161-162 | the reported error is never empty; it is the thrown message when there is one |
| ChatThresholdCron.SourceUrlOf | pages/api/capi/chat-threshold-cron.ts:135 | the URL is absent when missing or empty, and a non-empty row URL is passed through unchanged |
| ChatThresholdCron.ActionSourceOf | pages/api/capi/chat-threshold-cron.ts:107 | the action source is never empty, and a non-empty `META_ACTION_SOURCE` is used as given |
| ChatThresholdCron.ExperimentOf | pages/api/capi/chat-threshold-cron.ts:125 | the handler's experiment equals the label `eventIdFor` derives from the raw label |
| ChatThresholdCron.LedgerKey | pages/api/capi/chat-threshold-cron.ts:88-98 | the one key both `alreadyFired` and `markFired` use; its relation to the event id is stated in `KeyIsPrefixedEventId` and `LedgerKeyUnderCapi` |
| ChatThresholdCron.KeyIsPrefixedEventId | pages/api/capi/chat-threshold-cron.ts:88-98 | a row's ledger key is its event id under `capi:`, whether computed from the raw or the derived label |
| ChatThresholdCron.LedgerKeyUnderCapi | pages/api/capi/chat-threshold-cron.ts:90 | the ledger namespace is `capi:` followed by the event-id namespace |
| ChatThresholdCron.IsEligible | pages/api/capi/chat-threshold-cron.ts:111-116 | an eligible row has a normalisable phone, at least six messages, and a normalised number that is not a test number |
| ChatThresholdCron.FilterEligible | pages/api/capi/chat-threshold-cron.ts:111-116 | the filter never adds rows |
| ChatThresholdCron.FilterEligibleMembers | pages/api/capi/chat-threshold-cron.ts:111-116 | the filter keeps exactly the rows with a valid, non-test number and more than five messages |
| ChatThresholdCron.FreshRows | pages/api/capi/chat-threshold-cron.ts:121-128 | skipping already-fired rows never adds rows |
| ChatThresholdCron.FreshRowsMembers | pages/api/capi/chat-threshold-cron.ts:121-128 | the surviving rows are exactly those with a phone whose key the ledger lacks |
| ChatThresholdCron.BuildEvent | pages/api/capi/chat-threshold-cron.ts:130-144 | the event time is the clock in whole seconds, rounded down, and the URL at the top level equals the one in `custom_data` |
| ChatThresholdCron.EventContents | pages/api/capi/chat-threshold-cron.ts:130-144 | an event carries the fixed name, the time in seconds rounded down, `eventIdFor` of the row, the digest of the number's digits as its only phone field, the empty-as-absent URL in both places, and the run's action source |
| ChatThresholdCron.EventsFor | pages/api/capi/chat-threshold-cron.ts:121-146 | never more events than rows |
| ChatThresholdCron.EventsForSnoc | pages/api/capi/chat-threshold-cron.ts:121-146 | a row appended to the input appends its event, and appends nothing when the row has no phone |
| ChatThresholdCron.EventsForLength | pages/api/capi/chat-threshold-cron.ts:121-146 | rows that all have a phone give one event each |
| ChatThresholdCron.LastExperimentExists | pages/api/capi/chat-threshold-cron.ts:147 | a session has a last experiment exactly when some row belongs to it |
| ChatThresholdCron.LastExperimentIsLast | pages/api/capi/chat-threshold-cron.ts:147 | that experiment belongs to the session's last row |
| ChatThresholdCron.Remember | pages/api/capi/chat-threshold-cron.ts:147 | `Map.set` stores the entry and adds at most one entry |
| ChatThresholdCron.Lookup | pages/api/capi/chat-threshold-cron.ts:156 | a found experiment is stored as an entry for that session |
| ChatThresholdCron.RememberLookup | pages/api/capi/chat-threshold-cron.ts:147 | `Map.set` then `get` acts as a map update |
| ChatThresholdCron.RememberKeepsUnique | pages/api/capi/chat-threshold-cron.ts:147 | `Map.set` never creates a second entry for a session |
| ChatThresholdCron.RememberOrder | pages/api/capi/chat-threshold-cron.ts:147 | a new session goes to the end; a known session is overwritten in place, keeping its insertion position |
| ChatThresholdCron.LookupFinds | pages/api/capi/chat-threshold-cron.ts:156 | each entry of a map without duplicate sessions is what lookup returns for its session |
| ChatThresholdCron.LookupHasEntry | pages/api/capi/chat-threshold-cron.ts:156 | what lookup returns is stored as an entry |
| ChatThresholdCron.MarksFor | pages/api/capi/chat-threshold-cron.ts:119-148 | never more entries than rows, and at least one entry when there is a row |
| ChatThresholdCron.MarksForLookup | pages/api/capi/chat-threshold-cron.ts:119-148 | the session map holds, for each session, the experiment of its last row |
| ChatThresholdCron.MarksForUnique | pages/api/capi/chat-threshold-cron.ts:119-148 | the session map has one entry per session |
| ChatThresholdCron.MarksForSnoc | pages/api/capi/chat-threshold-cron.ts:147 | one more row is one more `set` |
| ChatThresholdCron.MarkKeysMembers | pages/api/capi/chat-threshold-cron.ts:156-157 | the committed keys are exactly the keys of the map's entries |
| ChatThresholdCron.MarksForKeys | pages/api/capi/chat-threshold-cron.ts:147-157 | a key is committed exactly when it is some session's key under that session's last experiment |
| ChatThresholdCron.ChecksPassAll | pages/api/capi/chat-threshold-cron.ts:128 | no EXISTS check throws exactly when no row with a phone has a failing key |
| ChatThresholdCron.BuildBatchFails | pages/api/capi/chat-threshold-cron.ts:121-148 | the build loop aborts exactly when some EXISTS check throws |
| ChatThresholdCron.BuildBatchMatchesFreshRows | pages/api/capi/chat-threshold-cron.ts:118-148 | otherwise it yields one event per fresh row, in order, and the session map of those rows, all checked against the starting ledger |
| ChatThresholdCron.BuildBatch | pages/api/capi/chat-threshold-cron.ts:121-148 | on success the map has no more entries than there are events, and no more events than rows; a failure carries a non-empty message |
| ChatThresholdCron.CommitMarks | pages/api/capi/chat-threshold-cron.ts:156-158 | the commit writes the map's keys in order and stops at the first SET that throws; exactly the keys before it are added, and the error reported is that SET's message |
| ChatThresholdCron.Dispatch | pages/api/capi/chat-threshold-cron.ts:111-162 | the ledger only grows, and grows only after a successful send; the send is called at most three times, and only for a non-empty batch; a 200 reports the batch size (the upper bound on what is written is `DispatchWritesOnlyPendingKeys`) |
| ChatThresholdCron.HttpStatus | pages/api/capi/chat-threshold-cron.ts:150-163 | the status is 200 or 500, and 200 exactly for a `processed` answer |
| ChatThresholdCron.Handler | pages/api/capi/chat-threshold-cron.ts:104-164 | a fetch that fails three times answers 500 with its error and sends and writes nothing; the ledger only grows, and only after a successful send; a 200 reports the batch size |
| CronProperties.ThresholdIsStrict | pages/api/capi/chat-threshold-cron.ts:115 | five messages never qualify; six qualify for a valid non-test number |
| CronProperties.PhonelessRowsNeverEligible | pages/api/capi/chat-threshold-cron.ts:112-113 | a row whose number does not normalise is filtered out |
| CronProperties.TestNumbersNeverEligible | pages/api/capi/chat-threshold-cron.ts:114 | a number listed in `TEST_NUMBERS_E164` is filtered out |
| CronProperties.EligibleHasPhone | pages/api/capi/chat-threshold-cron.ts:112-113 | an eligible row has a normalisable number |
| CronProperties.FilterEligibleAppend | pages/api/capi/chat-threshold-cron.ts:111-116 | the filter distributes over concatenation, so it keeps the row order |
| CronProperties.FreshRowsAppend | pages/api/capi/chat-threshold-cron.ts:121-128 | the ledger check distributes over concatenation, so it keeps the row order and judges each row alone |
| CronProperties.CheckFailureSendsNothing | pages/api/capi/chat-threshold-cron.ts:128 | a throwing EXISTS check fails the run without sending or writing |
| CronProperties.DispatchBatch | pages/api/capi/chat-threshold-cron.ts:111-148 | the batch is one event per eligible row whose key is absent from the ledger |
| CronProperties.FreshEventsUnfired | pages/api/capi/chat-threshold-cron.ts:126-128 | no batched event's id, under `capi:`, is already in the ledger |
| CronProperties.EmptyBatchShortCircuits | pages/api/capi/chat-threshold-cron.ts:150-152 | with nothing pending the run answers `processed: 0` without calling the send or writing |
| CronProperties.FailedSendWritesNothing | pages/api/capi/chat-threshold-cron.ts:154 | a send that throws three times leaves the ledger unchanged and reports the last error |
| CronProperties.CommitWithoutFaults | pages/api/capi/chat-threshold-cron.ts:156-158 | without SET failures every key is written and no error is reported |
| CronProperties.SuccessfulRunLedger | pages/api/capi/chat-threshold-cron.ts:154-160 | a successful send and commit answers with the batch size and the send's answer, and adds exactly the session map's keys |
| CronProperties.ProcessedRunCommitsAll | pages/api/capi/chat-threshold-cron.ts:150-160 | a 200 run passed every check and committed its whole map, or had nothing to send and wrote nothing |
| CronProperties.ProcessedRunLedger | pages/api/capi/chat-threshold-cron.ts:150-160 | after a 200 run the ledger is the starting ledger plus the keys of the pending rows' session map |
| CronProperties.MarkKeysPrefix | pages/api/capi/chat-threshold-cron.ts:156-158 | the keys of a stopped commit are among the keys of a full one |
| CronProperties.DispatchWritesOnlyPendingKeys | pages/api/capi/chat-threshold-cron.ts:118-158 | whatever fails, a run adds to the ledger only keys of its pending rows' session map |
| CronProperties.NothingFreshWhenAllFired | pages/api/capi/chat-threshold-cron.ts:128 | when every key is stored, nothing is pending |
| CronProperties.SentRowIsWritten | pages/api/capi/chat-threshold-cron.ts:147-157 | when a session keeps one experiment, a sent row's key is among the committed keys |
| CronProperties.ConsistentSubset | pages/api/capi/chat-threshold-cron.ts:147 | a sub-collection of session-consistent rows is session-consistent |
| CronProperties.RerunSendsNothing | pages/api/capi/chat-threshold-cron.ts:126-160 | after a 200 run, rerunning the same rows sends nothing and answers `processed: 0`, provided each session kept one experiment |
| CronProperties.TwoRowsPending | pages/api/capi/chat-threshold-cron.ts:111-128 | two eligible rows with unstored keys are both pending, in order |
| CronProperties.BothRowsFresh | pages/api/capi/chat-threshold-cron.ts:121-128 | two rows with a phone and unstored keys both survive the ledger check |
| CronProperties.OnlyFirstRowPending | pages/api/capi/chat-threshold-cron.ts:121-128 | only the row whose key is not stored stays pending |
| CronProperties.LedgerKeyDeterminesExperiment | pages/api/capi/chat-threshold-cron.ts:90 | a session's ledger key determines the experiment |
| CronProperties.MarksForSameSession | pages/api/capi/chat-threshold-cron.ts:147 | two rows of one session leave one entry, holding the later experiment |
| CronProperties.EventsForOne | pages/api/capi/chat-threshold-cron.ts:121-146 | a row with a phone gives exactly its own event |
| CronProperties.EventsForTwice | pages/api/capi/chat-threshold-cron.ts:121-146 | a row with a phone given twice gives its own event twice |
| CronProperties.DuplicateRowBatch | pages/api/capi/chat-threshold-cron.ts:121-146 | a row seen twice in one run gives two identical events |
| CronProperties.DuplicateRowSentTwice | pages/api/capi/chat-threshold-cron.ts:121-160 | a row seen twice is sent twice, reported as two processed events, and its key is written once |
| CronProperties.SwitchFirstRun | pages/api/capi/chat-threshold-cron.ts:147-158 | a session seen under two experiments sends two events and writes only the later key |
| CronProperties.SwitchSecondRun | pages/api/capi/chat-threshold-cron.ts:126-146 | with only the later key stored, the earlier row's event is the whole batch |
| CronProperties.ExperimentSwitchRefires | pages/api/capi/chat-threshold-cron.ts:119-158 | after an experiment switch within a run, the earlier experiment's key is missing and the next run sends that event again |
| CronProperties.PhoneOnlyReachesEventAsDigest | pages/api/capi/chat-threshold-cron.ts:130-138 | the phone appears in the event only as the digest of its normalised digits; two spellings that normalise alike give the same event |
| CronExamples.NormalizeEmpty | lib/capi.ts:8 | missing and empty numbers normalise to nothing |
| CronExamples.NormalizeNeedsPlus | lib/capi.ts:10 | `5550001` is rejected for lacking `+` |
| CronExamples.NormalizeTooShort | lib/capi.ts:12 | `+` and seven digits is rejected |
| CronExamples.NormalizeShortest | lib/capi.ts:12 | `+` and eight digits is accepted unchanged |
| CronExamples.EventIdExamples | lib/capi.ts:15-18 | `  A ` gives `chat-threshold:A:s1`; a missing or blank label gives `chat-threshold:default:s1` |
| CronExamples.ErrorMessageExamples | pages/api/capi/chat-threshold-cron.ts:162 | a message is passed through; an empty or missing one becomes `cron failure` |
| CronExamples.LedgerKeyExample | pages/api/capi/chat-threshold-cron.ts:90 | experiment `A`, session `s1` gives the key `capi:chat-threshold:A:s1` |

## Left out

- `fetchMetabaseRows` and `sendMetaEvents` (HTTP, URL and query parameters, JSON parsing): each is an attempt function passed through `WithRetries`. Its outcome per call is a parameter.
- SHA-256 and hex encoding: `digest` is an arbitrary function. Only what happens before it (trim, lower-case, strip `+`) is modelled.
- Timers: `setTimeout` backoff is recorded as a list of delays and never slept.
- The Redis client (`lib/redis.ts`, connection reuse), the stored timestamp value and the 180-day expiry: the ledger is a set of keys. Expiry would let an old session fire again, which the model does not capture.
- Concurrency: two overlapping runs can both pass the ledger check. The model treats one run at a time.
- `debug-fire`, `fetch-metabase` and the Redis test route: outside the dispatch core.
- `console.log` in `markFired` and the `NODE_ENV` check: no effect on the result.
- `toLowerCase` beyond ASCII: only ASCII capitals are lowered. This covers every character the hashed input can hold, since it is a normalised number.
- Strings are sequences of characters, not UTF-16 code units. The whitespace set is ECMAScript's.
- `messages_sent` is an integer. JSON numbers (fractions, `NaN`) are not modelled.
- The clock is read once per run, where the code reads `Date.now()` per event. The model gives every event of a run the same time.
- `null` and `undefined` are both `None` for the URL fields. The JSON body would spell them differently.
- The TypeScript types are trusted. A row whose `session_id` is not a string is not modelled.
- Store errors are given per key, so a check or write fails the same way every time it is made.
- ChatThresholdCron.FilterEligible: its own contract states only the length bound. Membership is stated in `FilterEligibleMembers` and order in `FilterEligibleAppend`.
- ChatThresholdCron.FreshRows: its own contract states only the length bound. Membership is stated in `FreshRowsMembers`.
- Retries.WithRetries: its own contract states only the call bounds. The full behaviour is stated in `WithRetriesSemantics`.
