# Browser tab tracker — a Dafny model of its core

The page this project models watches its own browser tab. It has four parts:

- **`DuplicateDetector`**
  - decides at load, and again on demand, whether the tab is a duplicate. A tab is a duplicate when the shared `browser_tab_state` record in `localStorage` names the same URL and is less than 5000 ms old. The tab then overwrites that record with its own.
  - keeps a best-effort open-tab counter (`browser_tab_count`) that never goes below zero, and a session id (`browser_session_id`) that the first writer sets.
  - records a `last_activity_<tabId>` entry when the tab is hidden. It lists the entries younger than 60000 ms.
  - can remove every tracking key at once.
- **`Stats`** accumulates active time. It has two states, active and inactive. While active, the time since the last recorded instant is added, unless that delta reaches a five-minute ceiling. It also formats seconds as `h:mm:ss`.
- **`EventLogger`** keeps a newest-first log capped at 100 entries, with a filtered and limited view. Beside it are the pure helpers `formatDuration`, `detectBrowser` and `detectDevice`.
- **`TabListener`** counts focus and visibility changes. It also decides how the page was opened: a new window, a duplicated tab, internal or external navigation, a bookmark, or a direct visit.

## How the model is built

`Date.now()` becomes a parameter `now`. Other values the page reads from the browser also become parameters:

- `window.location.href`;
- `document.hidden`;
- the user-agent text;
- `window.opener` and `document.referrer`;
- `history.length`;
- the hostnames `new URL(...)` finds;
- the random parts of generated ids.

`localStorage` is the class `LocalStorage.Storage`:

- Its keys form a sequence in the order `key(i)` enumerates them, and its items form a map.
- A value stored as text is classified by what `JSON.parse` and `parseInt` make of it (`LocalStorage.Value`).
  - A failed `JSON.parse` is a value that is not JSON.
  - NaN is `None`.

The code mutates objects in place, so those objects are Dafny classes. Each method is specified by a pure function of the old state, and the promised properties are lemmas about those functions:

- `DuplicateDetector` updates a flag and does read-modify-write on the store.
- `Stats`, `EventLogger` and `TabListener` update their fields.
- Two loops keep their loops in the model:
  - `checkForDuplicateInstances` keeps its index loop, with its invariant;
  - `clearAllTracking` keeps its backward removal loop over `key(i)`, with its invariant.

The formatters are specified against an inverse. `Strings.Numbers` reads the digit runs back out of a text, and `Strings.Base60` recombines them; the lemmas prove that the fields recombine to the input.

JavaScript semantics are written out explicitly:

- `%` truncates (`Strings.JsRem`).
- `Math.floor(x / k)` for a positive `k` is Dafny's Euclidean `/`.
- `padStart(2, '0')` is `Strings.Pad2`.
- `includes` is `Strings.Contains`.
- A `/…/i` test of ASCII alternatives is `Strings.ContainsIgnoreCase`.

Behaviours of the code that are easy to miss:

- **Leaving focus.** The comment on line 40 of `js/stats.js` says the `blur` handler records the active time before focus is lost. The code clears the flag before it records, so nothing is recorded; see Findings. The event semantics `ActivityStats.Step` and `ActivityStats.Run` take the handler order as a parameter (`BlurOrder`): `AsWritten` is the code, `RecordFirst` the corrected order. The invariant lemmas hold for both. The `Stats` class implements the corrected order.
- **A corrupt state record.** In `detectDuplicateTab` a record that fails to parse throws inside the `try` (lines 34-35). The exception skips both the comparison and the overwrite, so the corrupt record stays (`DuplicateDetection.AfterDetect`).
- **A corrupt activity record.** One unreadable `last_activity_` record empties the whole instance list. The other records are still in the store, but the scan does not return them (`DuplicateDetection.ScanFailsIff`).

Behaviours of the code that the model keeps:

- **`getLogs` with a negative limit.** `slice(0, limit)` drops that many entries from the end, so the model does the same (`EventLogging.SliceEnd`).
- **Opera.** `detectBrowser` never reports Opera for a user agent that contains "Chrome". Chromium-based Opera, whose user agent contains "Chrome" and "OPR", is reported as Chrome.
- **iPad.** `detectDevice` tests "iPad" among the mobile alternatives first, so the "iPad" alternative of its tablet pattern never decides anything.

## Model

| member | source | states |
|---|---|---|
| Strings.JsRem | js/stats.js:90-91 | JavaScript's `%` for a positive divisor: it differs from the dividend by a multiple of the divisor, its magnitude is below the divisor, and it takes the sign of the dividend; so it is `a % b` for `a ≥ 0` and `-((-a) % b)` for `a < 0` |
| Strings.IntToString | js/stats.js:94-98 | the text of a non-negative integer is its decimal digits, and a negative one is '-' before the digits of its magnitude |
| Strings.Pad2 | js/stats.js:94 | `padStart(2, '0')`: text of two or more characters is unchanged; shorter text is filled with '0' on the left to exactly two characters, ending with the original |
| Strings.Contains | js/utils.js:149-157 | `includes`: `sub` occurs in `s` at some position |
| Strings.ContainsIgnoreCase | js/utils.js:168-170 | a `/…/i` test of one ASCII alternative: `sub` occurs in `s` once both are lower-cased |
| Strings.Pad2NatToString | js/stats.js:94 | padding the decimal text of a number below 100 gives exactly two digits that still read as that number |
| Strings.NumbersOfNat | js/stats.js:94-98 | a number written in decimal is read back as that number, whatever non-digit text follows it |
| LocalStorage.ParseInt | js/duplicate-detector.js:64 | `parseInt` of the stored text gives a number exactly when the text is a decimal integer, and then that integer; NaN otherwise |
| LocalStorage.NumberText | js/duplicate-detector.js:65-66 | the text `toString` stores for a count (or NaN) is read back by `parseInt` as that same count (or NaN) |
| LocalStorage.Storage.GetItem | js/duplicate-detector.js:31 | `getItem` gives the stored value exactly when the key is present, and null otherwise |
| LocalStorage.Storage.SetItem | js/duplicate-detector.js:53 | `setItem` maps the key to the value; the key list gains the key at the end only if it was new; the store stays well formed |
| LocalStorage.Storage.RemoveItem | js/duplicate-detector.js:193-195 | `removeItem` drops the key from the map and from the key list, keeping the order of the others |
| LocalStorage.WithoutAt | js/duplicate-detector.js:198-201 | in a key list without repeats, removing the key found at index `i` removes exactly slot `i` |
| DuplicateDetection.AfterDetect | js/duplicate-detector.js:28-59 | a truthy stored state that is not JSON leaves the store unchanged (the parse throws before `setItem`); otherwise `browser_tab_state` holds this tab's own record `{tabId, url, now, userAgent}`; every other key is unchanged |
| DuplicateDetection.MatchesRecentState | js/duplicate-detector.js:34-38 | the stored state parses, names the current URL, and is less than 5000 ms old |
| DuplicateDetection.Rechecks | js/duplicate-detector.js:184-186 | the verdict after a sequence of rechecks at the given instants, each one a detect on the store the previous one left |
| DuplicateDetection.StoredCount | js/duplicate-detector.js:64 | `parseInt(getItem(count) \|\| fallback)`: an absent or empty counter gives the fallback; a stored number gives that number; anything else gives NaN |
| DuplicateDetection.DetectLeavesOwnRecord | js/duplicate-detector.js:38-53 | after a detect, the stored record matches the same URL at a later instant exactly when less than 5000 ms have passed, because no tab id is compared |
| DuplicateDetection.RechecksNeverClear | js/duplicate-detector.js:184-188 | once `isDuplicate` is true, any number of rechecks keeps it true |
| DuplicateDetection.RechecksWithinWindowMarkDuplicate | js/duplicate-detector.js:38-53 | a tab whose store parses and that rechecks twice within 5000 ms matches its own record and ends up reporting itself a duplicate |
| DuplicateDetection.AfterTracking | js/duplicate-detector.js:61-80 | the counter rises by exactly one, and an absent or empty counter reads as 0; NaN stays NaN; an existing session id is kept; a missing one becomes "session_" + the generated suffix; no other key changes |
| DuplicateDetection.AfterUnload | js/duplicate-detector.js:84-94 | the counter becomes `max(0, stored − 1)`, and an absent value reads as 1; a stored count is never negative afterwards; NaN stays NaN; no other key changes |
| DuplicateDetection.TrackingThenUnloadRestoresCount | js/duplicate-detector.js:64-88 | opening and then closing a tab restores a non-negative counter |
| DuplicateDetection.SessionFirstWriterWins | js/duplicate-detector.js:69-73 | a second tracking call never replaces the session id the first one left |
| DuplicateDetection.Scan | js/duplicate-detector.js:137-147 | the loop over `key(0)` … `key(n−1)`: fresh `last_activity_` records in key order, or a throw (`None`) at an unreadable one |
| DuplicateDetection.Instances | js/duplicate-detector.js:131-154 | the scan's list, or `[]` when the scan throws |
| DuplicateDetection.ScanFailsIff | js/duplicate-detector.js:137-153 | the instance scan fails (and the result is `[]`) exactly when some `last_activity_` key holds text that does not parse |
| DuplicateDetection.ScanLists | js/duplicate-detector.js:137-149 | a scan that succeeds lists a record exactly when it is stored under a `last_activity_` key and is less than 60000 ms old |
| DuplicateDetection.OwnActivityListed | js/duplicate-detector.js:137-146 | a tab that recorded its activity less than 60000 ms ago is among the listed instances |
| DuplicateDetection.Untracked | js/duplicate-detector.js:197-203 | the keys that survive the clean-up are exactly the keys that are not tracking keys |
| DuplicateDetection.UntrackedWithout | js/duplicate-detector.js:193-195 | removing a tracking key does not change which non-tracking keys remain, or their order |
| DuplicateDetection.UntrackedStep | js/duplicate-detector.js:198-203 | one step of the backward loop either removes key `i` (a tracking key) or keeps it, and extends the cleaned suffix by one |
| DuplicateDetection.KeptItems | js/duplicate-detector.js:191-209 | the store left by the clean-up is the old store restricted to the keys that are not tracking keys |
| DuplicateDetection.DuplicateDetector.constructor | js/duplicate-detector.js:7-22 | construction runs detect, then tracking: `isDuplicate` is the detect verdict and the store is the tracking result of the detect result |
| DuplicateDetection.DuplicateDetector.DetectDuplicateTab | js/duplicate-detector.js:28-59 | `isDuplicate` becomes true exactly when the stored state parses, names the current URL and is less than 5000 ms old; otherwise it keeps its value; the store becomes `AfterDetect` |
| DuplicateDetection.DuplicateDetector.RecheckDuplicate | js/duplicate-detector.js:184-188 | a recheck never clears `isDuplicate`, and it updates the store as a detect does |
| DuplicateDetection.DuplicateDetector.SetupTabTracking | js/duplicate-detector.js:61-80 | the store becomes `AfterTracking` of the old store |
| DuplicateDetection.DuplicateDetector.OnBeforeUnload | js/duplicate-detector.js:84-94 | the store becomes `AfterUnload` of the old store |
| DuplicateDetection.DuplicateDetector.OnVisibilityChange | js/duplicate-detector.js:97-102 | hiding the tab writes its activity record; showing it changes nothing |
| DuplicateDetection.DuplicateDetector.UpdateLastActiveTime | js/duplicate-detector.js:105-117 | `last_activity_<tabId>` holds `{tabId, now, url}`, and nothing else changes |
| DuplicateDetection.DuplicateDetector.CheckForDuplicateInstances | js/duplicate-detector.js:131-154 | the index loop returns, in key order, the fresh activity records, or `[]` when a read throws |
| DuplicateDetection.DuplicateDetector.GetTabInfo | js/duplicate-detector.js:156-181 | the count is `parseInt` of the counter, and an absent counter reads as 0; the session id is the stored one, or '無' when absent; `activeInstances` is the length of the instance list |
| DuplicateDetection.DuplicateDetector.ClearAllTracking | js/duplicate-detector.js:191-209 | the three fixed keys and every `last_activity_` key are removed; every other key keeps its value and its place in the key order |
| DuplicateDetection.DuplicateDetector.RemoveFixedKeys | js/duplicate-detector.js:193-195 | the three fixed keys are gone from the map, and the non-tracking keys keep their order |
| DuplicateDetection.DuplicateDetector.RemoveActivityKeys | js/duplicate-detector.js:198-203 | the backward loop leaves exactly the non-tracking keys, in order, and changes no value it keeps |
| ActivityStats.Record | js/stats.js:55-67 | while active, the delta is added when it is below 300000 ms, and `lastActiveTime` becomes `now` in either case; while inactive, nothing changes; with a clock that does not go back, the increase is at least 0 and below 300000 |
| ActivityStats.Focus | js/stats.js:33-36 | the page becomes active with `lastActiveTime = now`, and `activeTime` is untouched |
| ActivityStats.Blur | js/stats.js:38-51 | the intended blur: the pending time is recorded, then the page becomes inactive |
| ActivityStats.BlurAsWritten | js/stats.js:38-41 | the blur as written leaves `activeTime` and `lastActiveTime` unchanged and the page inactive |
| ActivityStats.BlurAsWrittenDropsPendingTime | js/stats.js:38-41 | after 800 ms of activity, the handler as written keeps 0 ms, where recording first keeps 800 ms |
| ActivityStats.BlurRecordsWhatAsWrittenDrops | js/stats.js:38-41 | the two blurs differ by exactly the pending time below the ceiling |
| ActivityStats.ResetAt | js/stats.js:121-125 | a reset gives `activeTime = 0`, `startTime = lastActiveTime = now`, and the page active |
| ActivityStats.LoseFocus | js/stats.js:38-51 | the handler for losing focus or visibility leaves the page inactive; it is `BlurAsWritten` for the code's order and `Blur` for the corrected one |
| ActivityStats.Step | js/stats.js:22-67 | focus, a visible page and a reset leave the page active; blur and a hidden page leave it inactive; an inactive page that is not woken gains no active time |
| ActivityStats.Run | js/stats.js:22-67 | after a run of events, the last event decides the active flag when it wakes the page or puts it to sleep |
| ActivityStats.StepConsistent | js/stats.js:33-67 | every handler, in either blur order, keeps `startTime ≤ lastActiveTime` and `0 ≤ activeTime ≤ lastActiveTime − startTime` under a clock that does not go back |
| ActivityStats.RunConsistent | js/stats.js:55-67 | any run of events under a non-decreasing clock keeps that invariant, both as written and with the corrected blur, so `inactiveTime` is never negative |
| ActivityStats.IdleTimeNotCounted | js/stats.js:33-56 | while the page stays inactive, no sequence of activity, tick, blur or stop events adds active time, in either blur order |
| ActivityStats.FormatTime | js/stats.js:88-100 | `formatTime`: `h:mm:ss`, `m:ss` or plain seconds, with `Math.floor`, the truncating `%` and `padStart` written out |
| ActivityStats.ClockTextOf | js/stats.js:88-100 | `formatTime` writes its hours, minutes and seconds in the three branches |
| ActivityStats.FormatTimeShape | js/stats.js:88-100 | `h:mm:ss` from 3600 s, `m:ss` from 60 s, and plain seconds below that |
| ActivityStats.FormatTimeFields | js/stats.js:88-100 | the numbers written are `[s/3600, s%3600/60, s%60]`, `[s/60, s%60]` or `[s]` |
| ActivityStats.FormatTimeReadsBack | js/stats.js:88-100 | the fields read back from `formatTime(s)` recombine in base 60 to `s` |
| ActivityStats.FormatTimePadded | js/stats.js:94-96 | after a leading field, minutes and seconds are written with exactly two digits behind a colon |
| ActivityStats.Stats.constructor | js/stats.js:7-20 | the fields start as a reset at `now`, with the display timer set |
| ActivityStats.Stats.RecordActivity | js/stats.js:55-67 | the fields become `Record` of the old fields, and the invariant is kept under a clock that does not go back |
| ActivityStats.Stats.OnFocus | js/stats.js:33-36 | the fields become `Focus` of the old fields |
| ActivityStats.Stats.OnBlur | js/stats.js:38-41 | the fields become `Blur` (the corrected order) of the old fields, and the invariant is kept |
| ActivityStats.Stats.OnVisibilityChange | js/stats.js:44-52 | visible acts as focus, and hidden acts as the corrected `Blur`; the invariant is kept |
| ActivityStats.Stats.UpdateTimeDisplay | js/stats.js:75-86 | the handler records while active, then formats the whole seconds of active and total time |
| ActivityStats.Stats.Reset | js/stats.js:121-132 | the fields become `ResetAt(now)`, and the timer is kept |
| ActivityStats.Stats.Stop | js/stats.js:161-167 | the display timer ends null, and one last `recordActivity` is applied |
| ActivityStats.Stats.GetDetailedStats | js/stats.js:102-119 | total = now − start, and active + inactive = total; under the invariant, active lies between 0 and total; each time is formatted from its whole seconds |
| EventLogging.Capped | js/utils.js:27-29 | `slice(0, maxLogs)` keeps a prefix of at most 100 entries |
| EventLogging.Pushed | js/utils.js:24-29 | the new entry goes to index 0 with the earlier entries after it in order; the length is `min(old + 1, 100)`; only the oldest entry is dropped |
| EventLogging.PushedAll | js/utils.js:24-29 | logging any sequence of entries keeps the newest 100 of everything logged, newest first |
| EventLogging.CappedFront | js/utils.js:24-29 | capping before or after inserting at the front gives the same list |
| EventLogging.OfKind | js/utils.js:100-102 | the filter keeps exactly the entries of the given type |
| EventLogging.OfKindSubsequence | js/utils.js:100-102 | the filter keeps the entries in their order |
| EventLogging.SliceEnd | js/utils.js:104-106 | `slice(0, limit)` keeps `min(limit, n)` entries for a non-negative limit and `max(0, n + limit)` for a negative one |
| EventLogging.EventLogger.constructor | js/utils.js:8-11 | the log starts empty |
| EventLogging.EventLogger.Log | js/utils.js:13-33 | `log` returns the very entry it built, with type 'info' when none is given and the id `Date.now() + Math.random()` in `[now, now + 1)`; the log becomes `Pushed` of the old log with that entry |
| EventLogging.EventLogger.Clear | js/utils.js:71-77 | the log is empty |
| EventLogging.EventLogger.GetLogs | js/utils.js:97-109 | with a truthy type, every entry returned has that type and the result is a prefix of the filter; with a truthy limit, exactly as many entries as `slice(0, limit)` keeps of the candidates (`SliceEnd`); a falsy type or limit (null, '', 0) applies no filter or cut |
| EventLogging.EventLogger.GetLogsSubsequence | js/utils.js:97-109 | whatever the arguments, `getLogs` returns entries of the log in the log's order |
| Utils.FormatDuration | js/utils.js:123-135 | `formatDuration`: hours, minutes and seconds with their units, from the floored whole seconds |
| Utils.DurationTextOf | js/utils.js:123-135 | the hour branch writes hours, `minutes % 60` and `seconds % 60` with their units |
| Utils.FormatDurationShape | js/utils.js:123-135 | the text has hours, minutes and seconds from one hour; minutes and seconds from one minute; seconds alone below that |
| Utils.FormatDurationFields | js/utils.js:123-135 | the numbers written are `[s/3600, s/60%60, s%60]`, `[s/60, s%60]` or `[s]` for `s = floor(ms / 1000)` |
| Utils.FormatDurationReadsBack | js/utils.js:123-135 | the fields read back recombine in base 60 to the whole seconds in `ms` |
| Utils.DetectBrowser | js/utils.js:146-162 | each of the six results holds exactly when its own test passes and every earlier test fails, in the order Chrome (has "Chrome", not "Edg"), Firefox, Safari (has "Safari", not "Chrome"), Edge ("Edg"), Opera ("Opera" or "OPR"), Unknown |
| Utils.DetectDevice | js/utils.js:165-175 | any UA containing "iPad", "Android" or "iPhone" (in any case) is Mobile; Tablet holds exactly when "Tablet" occurs and no mobile alternative does; Desktop holds exactly when neither pattern matches |
| Utils.TabletIPadUnreachable | js/utils.js:168-173 | a Tablet result never contains "iPad"; once the mobile test has failed, the tablet pattern is equivalent to "Tablet" alone |
| TabListening.Step | js/tab-listener.js:27-56 | focus sets `hasFocus`, counts one focus change and stamps `lastFocusTime`; blur clears `hasFocus` and counts one focus change; visibility sets `isVisible = !hidden`, counts one visibility change and stamps `lastVisibilityTime`; no other field changes, and the two counters together rise by exactly one |
| TabListening.Run | js/tab-listener.js:27-56 | after a run of events, the last event's own fields hold: a final focus leaves the tab focused and stamped with its instant, a final blur leaves it unfocused, a final visibility change leaves `isVisible = !hidden` and stamps its instant |
| TabListening.RunCounts | js/tab-listener.js:27-56 | over any event sequence, each counter rises by exactly the number of events of its kind |
| TabListening.RunSeparatesFields | js/tab-listener.js:27-56 | visibility events never touch the focus fields, and focus events never touch the visibility fields |
| TabListening.TabListener.GetStatus | js/tab-listener.js:195-204 | the six tracked fields, exactly as stored |
| TabListening.TabListener.constructor | js/tab-listener.js:7-13 | the page starts visible and focused, with zero counters and both instants at `now` |
| TabListening.TabListener.OnFocus | js/tab-listener.js:27-37 | the status becomes `Step` of the old status with a focus event |
| TabListening.TabListener.OnBlur | js/tab-listener.js:39-48 | the status becomes `Step` of the old status with a blur event |
| TabListening.TabListener.OnVisibilityChange | js/tab-listener.js:53-69 | the status becomes `Step` of the old status with a visibility event |
| TabListening.TabListener.ResetCounters | js/stats.js:197-201 | both counters become zero, and nothing else changes |
| TabListening.ExtractDomain | js/tab-listener.js:161-167 | the hostname, or '' when the URL does not parse |
| TabListening.CheckBrowserHistory | js/tab-listener.js:169-176 | true exactly when `history.length` can be read and exceeds 1 |
| TabListening.ClassifyOpening | js/tab-listener.js:116-159 | each of the six outcomes holds exactly under its condition in the strict priority: opener, then duplicate, then a non-empty referrer (same or other domain), then history, then direct |
| TabListening.UnparsableHostsAreInternal | js/tab-listener.js:132-167 | a referrer and a page URL that both fail to parse compare equal, and the opening is classified as internal navigation |
| TabListening.LowerPriorityInputsIgnored | js/tab-listener.js:120-158 | an opener always wins; with an opener, a duplicate or a referrer, the history length decides nothing; without a referrer, the hostnames decide nothing |

## Left out

- DOM rendering and downloads are not modelled: `updateDuplicateStatus`, `displayLog`, `updateTabStatus`, `updateVisibilityStatus`, `updateStats`, the element writes in `updateTimeDisplay` and `reset`, `EventLogger.export` and `exportStats`. These are browser side effects with no state of the model behind them.
- `logEvent` and `console` calls are not modelled. They only report, so the model drops them.
- Timers are reduced to their state changes:
  - `setInterval` scheduling, `setTimeout`, `utils.throttle`, `utils.debounce`, and the 100 ms delay in `detectPageOpener` are not modelled;
  - only the state the callbacks change is modelled;
  - the `Stats` constructor receives the interval handle as a parameter.
- Clocks and randomness come in as parameters:
  - `Date.now()` is the parameter `now`;
  - where a handler reads the clock twice, one instant is used:
    - `detectDuplicateTab` at lines 38 and 49;
    - the constructors of `Stats` and `TabListener`;
    - `reset` at lines 122 and 124 of `js/stats.js`, which is why `ActivityStats.ResetAt` can promise `startTime == lastActiveTime`;
    - `updateTimeDisplay`, which reads the clock inside `recordActivity` (line 57) and again for the total (line 82);
  - `generateTabId`, `utils.generateId` and the random suffix of the session id are given by the caller;
  - `Math.random()` in a log entry's id is the parameter `random`.
- Storage exceptions are not modelled:
  - every `localStorage` access succeeds, so a store that is disabled or over quota is outside the model;
  - the `catch` branches reached only that way are therefore not modelled. They are in `setupTabTracking`, the unload handler, `updateLastActiveTime`, `clearAllTracking`, and the fallback object of `getTabInfo`.
- Stored JSON is limited to the shapes this page writes: numbers and the two record shapes. JSON `null`, arrays and other objects are not modelled; for example, `null` stored under a `last_activity_` key would throw at `data.lastActive`.
- LocalStorage.ParseInt: text that only starts with digits (such as "12abc") reads as NaN here, whereas `parseInt` reads its leading digits. The page itself only stores decimal counts under the counter key.
- Floating point and locale formatting are not modelled: `activePercentage` with `toFixed`, `utils.formatFileSize`, and `formatTimestamp` with `toLocaleTimeString`. The formatted time of a log entry is a parameter.
- EventLogging.EventLogger.Log: `data` is text or null. `type` is `None` when omitted, which gives 'info'; an explicit `null` or `undefined` type is not distinguished from a string.
- EventLogging.EventLogger.GetLogs: when neither filter applies, `getLogs` returns `this.logs` itself (lines 98 and 108), so a caller's later change to that array would change the log. The model returns the sequence as a value, so this aliasing is not captured.
- EventLogging.EventLogger.GetLogs: a limit that is not an integer (which `slice` truncates) or is NaN is not modelled; the limit is an integer or absent.
- JavaScript numbers are IEEE doubles. The model's integers are unbounded, so behaviour past 2^53 ms is not captured.
- `new URL(...)` parsing is not modelled: hostnames are inputs, and `None` stands for a URL that throws.
- Environment sniffing is not modelled: `detectFeatureSupport`, `getPageInfo`, and the `navigator`, `window` and `screen` reads.
- Strings.ContainsIgnoreCase folds ASCII letters only. This is exact for the ASCII alternatives used here, but it is not a general Unicode case-insensitive match.
- LocalStorage.Storage.SetItem and LocalStorage.Storage.RemoveItem assume an order of `key(i)` that the browser does not guarantee: a new key is enumerated after the existing ones, and removing a key keeps the others in their order. Two results rest on these assumptions:
  - the proof that the backward loop of `clearAllTracking` removes every `last_activity_` key;
  - the "in key order" part of `checkForDuplicateInstances`.
  With another enumeration order, the set of keys and values each operation leaves is unchanged, but those two results are not proved.
- Races between tabs sharing `localStorage` are not modelled: each operation of one tab is atomic.
- The broadcast channel and the `active_tabs` index are not modelled, because they are not present in these source files.

## Findings

| source | as written | input that shows it | evidently intended | confidence | as-written member | corrected member |
|---|---|---|---|---|---|---|
| js/stats.js:38-41 | the `blur` handler (and the hidden branch at lines 48-51) sets `isCurrentlyActive = false` before calling `recordActivity`, which then returns without recording | active since `lastActiveTime = 0`, blur at `now = 800`: `activeTime` stays 0 | record the time spent active before the page became inactive, as the comment on line 40 says, and as the intended count of 800 ms shows | high, not executed | ActivityStats.BlurAsWritten, ActivityStats.BlurAsWrittenDropsPendingTime | ActivityStats.Blur, ActivityStats.Stats.OnBlur |
