# FRS auto-taker, modelled in Dafny

FRS auto-taker is a browser extension for a university course-registration
page ("FRS"). The user ranks classes in a priority list. The extension then
either *hunts* or *watches*:

- **Hunting.** It prepares a "take this class" form for the entry at the
  active index. It records a pending attempt with an attempt counter and asks
  the user for the CAPTCHA. After the page reloads, it reads the result and
  advances, retries or gives up.
- **Watching** ("Notify Extended"). It keeps a baseline of the quotas of the
  priority classes. On every reload it compares the page's quotas with the
  baseline. When some quota has gone up, it hands over to hunting at the
  best-ranked class that rose.

This project models the deciding logic of the content script, the
background page's store updates, the popup's priority-list editing and
guards, and the options page. All of it is modelled over one immutable
`Store`, the extension's persisted key-value store. Every asynchronous
handler becomes a pure transition function. The page is an input: `parsed`
is the class list read from the page and `grid` holds the cell texts of the
result table. The clock is an input `now`.

Modules:

- `Wrappers`: `Option`.
- `Text`: the JavaScript string built-ins the code relies on: `split`/`join`,
  `parseInt(…, 10)`, number-to-string, ASCII `toLowerCase`, `includes`.
- `Model`: the store and its records. The baseline object is an ordered
  entry list with distinct keys, kept in JavaScript property order.
  `baseline[k] = v` is `Put`. The lookups match `find`/`findIndex` (first
  match) and `new Map(…).get` (last match wins).
- `Background`: the message handlers of `background.js` that change the
  store.
- `Hunting`: `huntNext`, `tryTakeCandidate`, `getAttempt`,
  `evaluateAfterReload`, `isCandidateInGrid`, `pendingToCandidate`, and the
  resume step of `init`.
- `Watcher`: `buildNotifyBaseline`, `notifyCheckAndSchedule`,
  `enableNotifyWatcher`.
- `PageLoad`: `init`, the `START_HUNT` and `PRIORITY_UPDATED` messages, the
  option values read at load, and `parseOptionValue`.
- `Popup`: drag-and-drop and double-click edits, the class filter, `kapTxt`,
  and the `startHunt` and `onToggleNotify` guards.
- `Options`: loading and saving the options page.
- `Flows`: properties that span several parts, for example the popup's
  start followed by the content script's `START_HUNT`.

Behaviour of the code worth noting:

- There is no notify queue. A hand-off only sets the active index, and
  hunting then continues down the list from there
  (`frs-auto-taker/content.js:486-494`, `237`).
- A hand-off happens even when no increased class is in the priority list.
  The index is then 0 (`?? 0`, `frs-auto-taker/content.js:486`), and the
  watcher is switched off all the same.
- Classes without a numeric quota are left out of the baseline. They are
  not stored as placeholders that a later cycle fills in
  (`frs-auto-taker/content.js:410-413`).
- A quota of 0 counts as full (`frs-auto-taker/content.js:328`).
- A class missing from the fresh parse is treated as a CAPTCHA error and
  re-attempted from the stale pending record
  (`frs-auto-taker/content.js:323-330`, `359`).

## Model

| member | source | states |
|---|---|---|
| Text.Split | frs-auto-taker/content.js:810 | `String(val).split` on the bar character always yields at least one piece, and no piece contains the separator |
| Text.SplitJoin | frs-auto-taker/content.js:810 | splitting a join of separator-free pieces gives back the same pieces |
| Text.JoinSplit | frs-auto-taker/content.js:810 | joining the pieces of any split gives back the original string |
| Text.ParseIntOfIntToString | frs-auto-taker/options.js:31-38 | `parseInt(…, 10)` reads back any integer as printed, also when non-digit text follows it |
| Text.Lower | frs-auto-taker/popup.js:239-242 | lower-casing keeps the length and maps every character through the ASCII case mapping |
| Text.LowerIdempotent | frs-auto-taker/popup.js:239-242 | lower-casing an already lower-cased text changes nothing |
| Text.LowerKeepsIncludes | frs-auto-taker/popup.js:239-242 | a text that contains the typed filter still contains it when both are lower-cased, so the case-blind filter never hides an exact match |
| Model.FindIndex | frs-auto-taker/popup.js:456 | `findIndex` by key gives the first position with the key, or -1 exactly when no entry has the key |
| Model.FindClass | frs-auto-taker/content.js:323 | `find` by key returns a class exactly when some class has the key; the class returned has the key and no earlier class has it |
| Model.LastIndexOf | frs-auto-taker/content.js:435 | `new Map(priority.map((p, i) => …)).get` gives the last position with the key, and nothing exactly when the key is absent |
| Model.LastClass | frs-auto-taker/content.js:452 | the `nowMap` lookup finds a class exactly when the key is listed; the class found has the key and no later class has it |
| Model.Lookup | frs-auto-taker/content.js:455 | a baseline has an entry under a key exactly when the key is among its keys |
| Model.PutLookup | frs-auto-taker/content.js:411 | after `baseline[k] = e`, reading `k` gives `e` and every other key reads as before |
| Model.KeyCount | frs-auto-taker/background.js:199-201 | the number of `Object.keys` of a baseline equals its number of entries (keys are distinct) |
| Model.PutMembers | frs-auto-taker/content.js:411 | after `baseline[k] = e` every entry is `e` or an old entry under another key |
| Model.PutSameQuotas | frs-auto-taker/content.js:411 | writing the same key and quota into two baselines that differ only in timestamps keeps them differing only in timestamps |
| Background.OnInstalled | frs-auto-taker/background.js:39-46 | on install, a falsy run mode becomes "idle" and an undefined watcher flag becomes false; everything else is unchanged |
| Background.OnInstalledIdempotent | frs-auto-taker/background.js:39-46 | installing twice is the same as installing once; missing keys get the defaults |
| Background.StopHunt | frs-auto-taker/background.js:117-126 | stopping always gives run mode idle, no pending record, index 0 and no CAPTCHA snapshot, and nothing else changes |
| Background.ToggleNotify | frs-auto-taker/background.js:129-157 | switching the watcher on is refused exactly when the run mode is not "idle", and a refusal writes nothing; an accepted switch stores the flag and resets the baseline to `{}` (on) or null (off) |
| Background.NotifyFound | frs-auto-taker/background.js:176-181 | only the watcher flag changes, and it becomes false |
| Background.SetLastTs | frs-auto-taker/background.js:183-189 | only the last-check time changes, to the current time |
| Background.NeedCaptcha | frs-auto-taker/background.js:81-97 | only the CAPTCHA snapshot changes; it holds the caption and the time |
| Background.ReorderPriority | frs-auto-taker/background.js:65-78 | only the priority list changes, to the list sent |
| Background.CaptchaSubmit | frs-auto-taker/background.js:99-115 | the CAPTCHA text is forwarded exactly when both the tab id and the value are truthy, and to that tab |
| Background.NotifyStatus | frs-auto-taker/background.js:191-204 | the status reports the flag's truthiness, the last time only when it is truthy, and the number of distinct baseline keys (0 without a baseline) |
| Hunting.TryTake | frs-auto-taker/content.js:250-281 | the pending record names the candidate and stores the index; its counter is the stored counter plus one for the same key and 1 otherwise; the caption carries the same counter; nothing else changes |
| Hunting.RetakeFromPending | frs-auto-taker/content.js:898-907 | re-attempting from a stale pending record keeps every field that names the class and adds one to the counter |
| Hunting.AttemptCounter | frs-auto-taker/content.js:886-892 | `getAttempt` after an attempt at a key is one more than before; an attempt at another key restarts the count at 1 |
| Hunting.HuntNext | frs-auto-taker/content.js:227-248 | nothing changes unless hunting with a non-empty list; an index past the end gives idle with no pending record; otherwise exactly `priority[idx]` is attempted, with idx 0 when forced to the top |
| Hunting.HuntNextSettles | frs-auto-taker/content.js:238-245 | once the list is exhausted the engine is idle, and a further step changes nothing |
| Hunting.IsCandidateInGrid | frs-auto-taker/content.js:873-884 | the loop answers true exactly when some row of four or more cells shows the code in cell 0 and the section in cell 3 |
| Hunting.ClassifySpec | frs-auto-taker/content.js:305-330 | Success exactly when the grid shows the display or value code with the section. Otherwise Full exactly when the first parsed class with the key has numeric counts with quota 0 or quota reached. Otherwise a CAPTCHA error, in particular when the key is missing from the parse |
| Hunting.Advance | frs-auto-taker/content.js:315-318 | the pending record is cleared and the index moves on by one; nothing else changes |
| Hunting.Evaluate | frs-auto-taker/content.js:304-364 | without a retry the result is the advance; a retry keeps the key and the index and adds one to the stored counter |
| Hunting.Resume | frs-auto-taker/content.js:147-160 | the resume step changes nothing unless hunting with a non-empty list, and it keeps the list and the baseline |
| Hunting.ResumeRetryCountsTwice | frs-auto-taker/content.js:156-159 | as written, a retry in the resume step is followed by `huntNext()`, so the counter grows by two per reload |
| Hunting.ResumeAdvances | frs-auto-taker/content.js:147-160 | when the evaluation advances, the resume step attempts the next entry with counter 1, or goes idle at the end |
| Hunting.ResumeFixed | frs-auto-taker/content.js:147-160 | the corrected resume step: a retry adds exactly one to the counter |
| Hunting.ResumeFixedAgreesElsewhere | frs-auto-taker/content.js:147-160 | without a retry, the corrected resume step is the written one |
| Watcher.BuildLookup | frs-auto-taker/content.js:396-416 | the built baseline has a key exactly when it is a priority key with a numeric quota on some parsed class, and it maps the key to the quota of the last such class |
| Watcher.BuildEntries | frs-auto-taker/content.js:406-413 | every built entry is under a priority key, carries the build time and the quota of the last parsed class with the key and a numeric quota |
| Watcher.BuildIgnoresClock | frs-auto-taker/content.js:396-416 | building twice from the same lists gives the same keys, order and quotas; only the timestamps differ |
| Watcher.RefreshLookup | frs-auto-taker/content.js:509-519 | with no rise, the new baseline holds exactly the priority keys whose current quota is numeric, with that quota and the current time |
| Watcher.Increases | frs-auto-taker/content.js:452-473 | every reported item has a positive delta equal to the new quota minus the old, and the new quota is the page's current numeric quota |
| Watcher.IncreasesIff | frs-auto-taker/content.js:455-473 | an item is reported for a key exactly when a baseline entry under that key holds a quota below the current numeric one |
| Watcher.NoRiseAgainstOwnBuild | frs-auto-taker/content.js:396-473 | compared against a baseline just built from the same page, no quota has risen |
| Watcher.SortHead | frs-auto-taker/content.js:481-485 | the head of the stable sort has the smallest priority rank, and every item before it has a strictly larger rank; unranked items sort last |
| Watcher.TargetIsBestRanked | frs-auto-taker/content.js:481-486 | the hand-off index is at or before the position of every increased class in the list; it names an increased class when one is ranked; it is 0 when none is listed |
| Watcher.WatchCycle | frs-auto-taker/content.js:421-527 | nothing happens unless the flag is on and the mode is idle. With a rise: watcher off, hunting, index at the best-ranked rise, and the first attempt there with counter 1. Without one: the baseline is replaced by the refresh, the check time is set, and hunting state is untouched |
| Watcher.EmptyBaselineNeverHandsOff | frs-auto-taker/content.js:446-455 | a cycle with a missing or empty baseline compares against that empty object, so it never hands off; it only stores the refresh |
| Watcher.BuildBaseline | frs-auto-taker/content.js:396-416 | only the baseline changes, and it holds exactly the priority keys with a numeric quota in the stored classes (or the page when none are stored) |
| Watcher.EnableWatcher | frs-auto-taker/content.js:370-393 | switching off only stores the flag; switching on outside idle stores the flag and the fresh build and nothing else; switching on while idle leaves the engine idle with the flag on, hunting state unchanged, and the refreshed baseline of the first cycle |
| Watcher.EnableSeesNoRise | frs-auto-taker/content.js:387-389 | the baseline built on enabling shows no rise against the classes the first cycle compares with, whatever class list is stored |
| Watcher.EnableDoesNotHandOff | frs-auto-taker/content.js:387-390 | switching on never hands off in the same call: run mode, pending attempt and index are kept, and the flag ends on |
| PageLoad.ParseOptionValue | frs-auto-taker/content.js:809-817 | no field contains the bar separator; a value without a bar is all code, and the other fields are empty |
| PageLoad.ParseOptionValueRoundTrip | frs-auto-taker/content.js:809-817 | four bar-free fields joined with bars parse back to themselves |
| PageLoad.ParseOptionValueIgnoresTail | frs-auto-taker/content.js:809-817 | pieces after the fourth do not change the result |
| PageLoad.MaxAttempts | frs-auto-taker/content.js:125-127 | the CAPTCHA budget is the stored `maxCaptcha` when truthy, else 8 |
| PageLoad.IntervalMs | frs-auto-taker/content.js:128-129 | the reload interval is the stored seconds times 1000 when they are 5 or more, exactly 5 s for any other non-zero value (negative ones included), and 30 s when unset or 0 |
| PageLoad.Init | frs-auto-taker/content.js:123-161 | `init` keeps the priority list; with the watcher off and no hunt running, it only stores the parsed classes |
| PageLoad.Cycle | frs-auto-taker/content.js:133-145 | the classes are stored and, with the flag off, nothing else changes |
| PageLoad.InitHandOffBurnsAttempts | frs-auto-taker/content.js:139-160 | as written, when the watcher is on and idle, some class has risen, the best-ranked one is in the list, and its fresh attempt reads as a CAPTCHA error on the page just loaded, `init` hands off and then evaluates that attempt at once; the first attempt at the target is stored with counter 3 |
| PageLoad.InitHandOffExample | frs-auto-taker/content.js:139-160 | the concrete input in the findings table (priority [A], baseline A: 30, page quota 40 with 35 taken, no enrolled row) leaves the first attempt at A with counter 3 |
| PageLoad.InitHandOffSkipsFullTarget | frs-auto-taker/content.js:139-160 | as written, when the hand-off target reads as full on the page just loaded, `init` skips it before any form is submitted: the watcher is off and the engine moves to the next entry, or goes idle with nothing pending |
| PageLoad.InitHandOffFullExample | frs-auto-taker/content.js:139-160 | with priority [A], baseline A: 30 and A showing 40 of 40 seats taken, the load ends idle with nothing pending and the watcher off |
| PageLoad.InitFixed | frs-auto-taker/content.js:123-161 | the corrected `init`: after a hand-off in the same load, the store is what the hand-off left |
| PageLoad.InitFixedHandOffFresh | frs-auto-taker/content.js:139-160 | after a hand-off, the corrected `init` leaves the first attempt at the target with counter 1 |
| PageLoad.InitFixedAgreesElsewhere | frs-auto-taker/content.js:123-161 | without a hand-off or a retry, the corrected `init` is the written one |
| PageLoad.StartHunt | frs-auto-taker/content.js:167-175 | `START_HUNT` gives hunting at index 0 and attempts the first entry with counter 1; an empty list leaves nothing pending |
| PageLoad.PriorityUpdated | frs-auto-taker/content.js:177-188 | the index returns to 0; the baseline is rebuilt only when the watcher flag is truthy; a running hunt re-attempts the top entry |
| PageLoad.PriorityUpdatedNoHandOff | frs-auto-taker/content.js:181-184 | after the rebuild, while watching over a stored class list, a cycle over that stored list before any reload sees no rise: the watcher stays on and idle |
| PageLoad.PriorityUpdatedThenReload | frs-auto-taker/content.js:139-160 | the reload that follows a reorder, on a page showing the stored classes, neither hands off nor starts a hunt |
| Popup.RemoveAt | frs-auto-taker/popup.js:458 | `splice(i, 1)` drops exactly the element at `i` and keeps the others in order |
| Popup.InsertAt | frs-auto-taker/popup.js:460 | `splice(i, 0, x)` puts `x` at `i`, clamped to the length, and adds exactly `x` |
| Popup.RemoveInserted | frs-auto-taker/popup.js:458-460 | removing what was just inserted gives back the list |
| Popup.InsertRemoved | frs-auto-taker/popup.js:458-460 | inserting what was just removed, at the same place, gives back the list |
| Popup.Move | frs-auto-taker/popup.js:455-462 | reordering saves nothing exactly when the key is empty or unknown; otherwise it is a permutation of the same length |
| Popup.MoveLands | frs-auto-taker/popup.js:455-462 | the first entry with the key lands at the adjusted drop index, and the other entries keep their order |
| Popup.MoveInPlace | frs-auto-taker/popup.js:455-462 | dropping an entry just above or just below itself leaves the list unchanged |
| Popup.MoveDistinct | frs-auto-taker/popup.js:455-462 | reordering keeps the keys distinct |
| Popup.InsertFromClasses | frs-auto-taker/popup.js:463-470 | no change when the key is empty, already listed or not cached. Otherwise the first cached class with the key is at the drop index, the list grows by one, the rest is unchanged, and the keys stay distinct |
| Popup.RemoveFirst | frs-auto-taker/popup.js:492-499 | exactly the first entry with the key is removed, and nothing when the key is absent; the key is then gone from a distinct list |
| Popup.RemoveAll | frs-auto-taker/popup.js:308-311 | no entry with the key remains, and every other entry stays |
| Popup.RemoveAllAppend | frs-auto-taker/popup.js:308-311 | the removal works piece by piece, so the kept entries keep their order |
| Popup.RemoveAllIdempotent | frs-auto-taker/popup.js:308-311 | removing twice removes nothing more |
| Popup.RemoveAllIsRemoveFirst | frs-auto-taker/popup.js:308-311 | on a list with distinct keys, the double-click removal equals the drop-on-section removal |
| Popup.Append | frs-auto-taker/popup.js:314-318 | the class is appended after the unchanged list; keys stay distinct when it was not listed |
| Popup.AppendThenRemove | frs-auto-taker/popup.js:308-318 | appending a class and double-clicking it away restores the list |
| Popup.Offered | frs-auto-taker/popup.js:235-243 | a class is offered exactly when it is cached, its key is not in the priority list, and (when a filter is set) its lower-cased text contains the lower-cased filter |
| Popup.OfferedAppend | frs-auto-taker/popup.js:236-243 | filtering keeps the cache order |
| Popup.OfferedAll | frs-auto-taker/popup.js:236-243 | with no filter and an empty priority list, every cached class is offered, in order |
| Popup.AppendHides | frs-auto-taker/popup.js:235-243 | a class appended to the priority list is no longer offered, nor any class with its key |
| Popup.KapTxt | frs-auto-taker/popup.js:323-326 | the badge is the dash exactly when the capacity or either count is missing |
| Popup.KapTxtReadsBack | frs-auto-taker/popup.js:323-326 | the badge of known counts splits at `/` into two parts that parse to `terisi` and `kuota` |
| Popup.StartHunt | frs-auto-taker/popup.js:333-347 | refused exactly for an empty list; otherwise it writes the list, hunting, index 0 and no pending record, and nothing else |
| Popup.ToggleNotify | frs-auto-taker/popup.js:168-182 | the switch is reverted, sending nothing, exactly when switching on while not idle; otherwise the setting is sent, with a baseline rebuild when switching on |
| Options.NumberOr | frs-auto-taker/options.js:33 | `parseInt` with a default is the parsed number unless it is NaN or 0, which give the default |
| Options.ClampTo | frs-auto-taker/options.js:31-38 | the clamp lies within the bounds, keeps in-range values, and pins the rest to the nearer bound |
| Options.Save | frs-auto-taker/options.js:30-39 | the saved budget is always in [1, 20] and the interval in [5, 300] |
| Options.SaveReadsFields | frs-auto-taker/options.js:31-38 | unreadable or zero input saves 8 and 30; in-range input is saved unchanged; out-of-range input is pinned to the nearer bound |
| Options.Load | frs-auto-taker/options.js:21-27 | with no stored options the page shows 8 and 30; a missing field shows its default |
| Options.SaveThenLoad | frs-auto-taker/options.js:21-39 | in-range numbers typed in are shown unchanged the next time the page opens |
| Options.LoadThenSaveStable | frs-auto-taker/options.js:21-39 | opening the page and saving without edits stores the same record |
| Flows.StartFromPopup | frs-auto-taker/popup.js:333-347 | the popup's start followed by `START_HUNT` attempts the first entry with counter 1 at index 0 |
| Flows.ToggleGuardsAgree | frs-auto-taker/popup.js:168-182 | whatever the popup sends is accepted by the background; the background never turns the flag on outside idle |
| Flows.EnableWhileIdleStaysWatching | frs-auto-taker/background.js:129-157 | switching on while idle, whatever class list is stored, is accepted and leaves the watcher on and the engine idle after the first cycle |
| Flows.StopThenReload | frs-auto-taker/background.js:117-126 | after a stop between page loads, the next load with the watcher off leaves the engine idle with nothing pending at index 0 |
| Flows.SavedBudgetInRange | frs-auto-taker/options.js:31-34 | whatever is typed in, the content script's CAPTCHA budget is the saved one, in [1, 20] |
| Flows.SavedIntervalInRange | frs-auto-taker/options.js:35-38 | whatever is typed in, the reload interval is the saved seconds, between 5 s and 300 s |
| Flows.HandOffIsFinal | frs-auto-taker/content.js:488-494 | after a hand-off, a further cycle on any page changes nothing |
| Flows.FoundStopsWatcher | frs-auto-taker/background.js:176-181 | after the background records a find, no cycle acts |

## Left out

- Reading the page (`parseAllClasses` and its text heuristics, the options and
  the result table): their output is the input `parsed` and `grid`. The
  trimming of the table cells happens before the model.
- CAPTCHA image capture and refresh, and filling and submitting the form: DOM,
  canvas and network work. Only the caption and the timestamp of the
  snapshot are modelled; the image URL, the data URL and the tab id are not.
- Timers, reloads and the 3-second back-off before a retry: time is left out.
  A retry is one step, and the scheduled reload is only the interval value
  (`PageLoad.IntervalMs`).
- Notifications, the overlay, the alarm sound and the offscreen document: UI
  and audio output.
- Message delivery and its failures: every handler is applied to the store
  directly. The popup's `SET_STATE` is modelled as the store write it
  performs. The tab messages that follow a toggle are modelled by
  `Watcher.EnableWatcher` and `Watcher.BuildBaseline`.
- Interleaving: every handler runs as one atomic step, so what happens when
  a message arrives while another handler waits on storage or a timer is
  not modelled. For example, a `STOP_HUNT` that arrives during the 3-second
  back-off before a retry (`frs-auto-taker/content.js:357`) is followed by
  that retry's `tryTakeCandidate`, which writes a pending attempt, the index
  and a CAPTCHA snapshot while the engine is idle. `Flows.StopThenReload`
  speaks only of a stop between page loads.
- The form is assumed present. `ensureForm`
  (`frs-auto-taker/content.js:634-638`, called at `290` after the pending
  attempt, the index and the snapshot are written) alerts and throws when
  the form is missing. That aborts `init` before `huntNext()` and aborts the
  watcher's hand-off; the model always continues.
- `getActiveIndex` (`|| 0`): the stored index is a `nat` that is 0 when
  missing.
- `Text.ParseInt`: not modelled are number sizes beyond exact integers,
  exponents, and whitespace other than ASCII space, tab, line breaks and a
  few Unicode spaces.
- Text.Lower: folds only the ASCII letters A to Z. The class filter
  (`frs-auto-taker/popup.js:239-242`) lower-cases the whole text with full
  Unicode case mapping, so matches that need non-ASCII folding (accented or
  other non-Latin capitals) are not modelled.
- The stored option values are modelled as integers. A non-numeric value
  written into storage by something other than the options page is not
  modelled.
- Watcher.SortHead: only the head of the sorted increased items is modelled,
  because nothing else of the sorted order affects the store. The rest is
  used only by the overlay.
- Watcher.Increases: classes whose baseline quota is not a number cannot
  occur, because every writer of the baseline stores numeric quotas, so the
  `typeof oldKuota` check is not modelled.
- The popup's drop index comes from pointer geometry (`getDropIndex`) and is
  an input. Rendering, collapsing sections and grouping by category are view
  work.

## Findings

| source | as written | input that shows it | evidently intended | confidence | as-written member | corrected member |
|---|---|---|---|---|---|---|
| frs-auto-taker/content.js:152-159 | after `evaluateAfterReload` re-attempts the same class (a CAPTCHA error under the budget), `init` still calls `huntNext()`, which prepares the same class again, so the counter goes from 1 to 3 | hunting with priority ["A"], pending `{rawValue: "A", attempt: 1}`, `priority[activeIndex]` is "A", the page shows neither success nor a full class, budget 8, the form is present | one new attempt per reload: the counter goes from 1 to 2 | not executed | Hunting.ResumeRetryCountsTwice (on Hunting.Resume) | Hunting.ResumeFixed |
| frs-auto-taker/content.js:139-160 | a watcher hand-off inside `init` prepares a first attempt, and the resume step right after it evaluates that attempt on the same, unsubmitted page: a CAPTCHA-error reading asks for two more CAPTCHAs, a full reading skips the class | watcher on and idle; priority ["A"]; baseline `{A: 30}`; page shows "A" with quota 40 and 35 seats filled, and the grid does not show "A"; the form is present. With 40 of 40 seats taken instead, A is skipped without an attempt and the load ends idle with the watcher off | leave the fresh attempt alone until its form is submitted: counter 1 | not executed | PageLoad.InitHandOffBurnsAttempts and PageLoad.InitHandOffSkipsFullTarget (on PageLoad.Init) | PageLoad.InitFixed |
