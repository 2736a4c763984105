# A verified model of the SendLock Gmail delay-send extension

SendLock is a browser extension for Gmail. It intercepts the send action of a
compose window and holds the message for a fixed delay, showing a countdown
banner; cancelling within the delay keeps the message unsent. It keeps a
registry of open compose windows with their drafts mirrored into extension
storage. It scrapes recipients out of Gmail's compose UI. It builds a MIME
message and hands it to the Gmail API as a base64url `raw` value. A settings
popup persists the user's choices.

This project models that logic in Dafny and proves what each piece promises.

| module | file | models |
|---|---|---|
| `Wrappers` | wrappers.dfy | `Option` (for `null`/`undefined`) and `Result` (for a thrown error) |
| `Text` | text.dfy | the JavaScript string operations used: `includes`, `startsWith`/`endsWith`, `replace` with a string pattern, `trim` and `\s`, `split(/[,;]/)`, decimal printing, `padStart(2, "0")` |
| `Storage` | storage.dfy | `chrome.storage.local`, as a map from keys to JSON-like values, and JavaScript truthiness |
| `DelaySend` | delay_send.dfy | `src/content/components/GmailIntegration.tsx`: the pending slot, the interval countdown, cancel, attachment with a `seen` set, and the keydown filter |
| `Drafts` | draft_manager.dfy | `src/content/utils/draftManager.ts`: the compose-window registry, the storage mirror, the read-through cache, and cleanup |
| `Recipients` | recipients.dfy | the recipient pipelines of `src/content/utils/gmailSelectors.ts` |
| `Selectors` | selectors.dfy | `findElement`, `findAllElements`, `matchesAnySelector`, the compose-window helpers, and `getRecipientsFromField` |
| `Banner` | banner.dfy | `src/content/components/NotificationBanner.tsx`: `formatTime` and the banner's content |
| `EmailState` | email_state.dfy | `src/content/components/EmailState.tsx`: the minutes/seconds countdown, its `formatTime`, and the render conditions |
| `Popup` | popup.dfy | `src/popup/pages/Index.tsx`: `formatDelay`, hydration of the settings from storage, and the persisting setters |
| `GmailApi` | gmail_api.dfy | `buildMimeMessage` and the `raw` encoding chain of `src/content/utils/gmailApi.ts` |
| `Background` | background.dfy | `src/background/index.ts`: the message listener and the schedule pipeline, which creates a draft and then sends it |

## How the model is built

Stateful components become classes:

- `DelaySend.GmailIntegration`, `Drafts.DraftManager` and `Popup.PopupPage` are classes whose fields are the component's state.
- Each mutating method ensures that the new state is a pure step function of the old one: `Intercept`, `Tick`, `Cancel`, `Register`, `UpdateDraft`, `Hydrate`, and so on.
- The mutating methods of `DelaySend.GmailIntegration` and `Drafts.DraftManager` require and ensure the class invariant `Valid(State())`, which the constructors establish.
- The properties are proved as lemmas about those step functions.

Loops in the source stay loops:

- `findElement`, `findAllElements` and the recipient `forEach`/push loops are methods with loop invariants.
- So is the storage walk of `cleanupOldDrafts`.
- Each one is proved equal to a specification function.

I/O and the browser become parameters:

- Every DOM query is a parameter. It is either an oracle function, such as `query(selector)`, or a "scan" record of what the code reads from the matched elements.
- Clocks and the id generator are parameters.
- Replies of the background worker and HTTP responses are parameters.
- Each firing of `setInterval` is an explicit call.
- A send of the delayed message is an entry appended to a log.

`DELAY_MS` is 30000, so a countdown starts at 30 seconds. The comment next to it
(`GmailIntegration.tsx:6`) says 10 seconds; the model follows the code.

## Model

| member | source | states |
|---|---|---|
| DelaySend.InterceptStarts | src/content/components/GmailIntegration.tsx:49-63 | a new intercept starts at 30 seconds with the given message and sends nothing yet; an intercept while something is pending changes nothing |
| DelaySend.TickStep | src/content/components/GmailIntegration.tsx:53-61 | a firing above one decrements the counter by exactly one and sends nothing; the firing that reaches zero empties the slot, clears the interval and sends the held message once |
| DelaySend.Countdown | src/content/components/GmailIntegration.tsx:53-61 | after k seconds the banner shows the counter less k and nothing has been sent; from the counter's value on the message has been sent exactly once and nothing is pending |
| DelaySend.QuietAfterSend | src/content/components/GmailIntegration.tsx:56-60 | with nothing pending, no later tick changes anything, so nothing is sent again |
| DelaySend.DelayedSendOnce | src/content/components/GmailIntegration.tsx:49-73 | after an intercept from the idle state nothing is sent for 29 seconds, and from 30 seconds on the message has been sent exactly once and the banner is gone |
| DelaySend.CancelPreventsSend | src/content/components/GmailIntegration.tsx:66-73 | cancel with nothing pending changes nothing; after a cancel no interval is live, the banner is gone and no amount of time sends anything |
| DelaySend.AtMostOneTimer | src/content/components/GmailIntegration.tsx:50 | under the invariant at most one interval is live, and none is live when nothing is pending |
| DelaySend.IdleValid | src/content/components/GmailIntegration.tsx:18 | the initial state satisfies the slot/timer invariant |
| DelaySend.InterceptValid | src/content/components/GmailIntegration.tsx:49-63 | an intercept preserves the slot/timer invariant |
| DelaySend.TickValid | src/content/components/GmailIntegration.tsx:53-61 | a firing of any interval preserves the slot/timer invariant |
| DelaySend.CancelValid | src/content/components/GmailIntegration.tsx:66-71 | cancel preserves the slot/timer invariant |
| DelaySend.AttachValid | src/content/components/GmailIntegration.tsx:22-42 | attaching preserves the slot/timer invariant |
| DelaySend.AttachIdempotent | src/content/components/GmailIntegration.tsx:22-42 | attaching the same compose window twice registers nothing the second time; the first attach adds a click listener only when there is a send button, plus one keydown listener |
| DelaySend.GmailIntegration.HandleInterceptSend | src/content/components/GmailIntegration.tsx:49-63 | the new component state is the intercept step of the old one; the slot/timer invariant is kept |
| DelaySend.GmailIntegration.IntervalFired | src/content/components/GmailIntegration.tsx:53-61 | the new component state is the tick step of the old one; the slot/timer invariant is kept |
| DelaySend.GmailIntegration.HandleCancel | src/content/components/GmailIntegration.tsx:66-71 | the new component state is the cancel step of the old one; the slot/timer invariant is kept |
| DelaySend.GmailIntegration.AttachToCompose | src/content/components/GmailIntegration.tsx:23-42 | the new component state is the attach step of the old one; the slot/timer invariant is kept |
| DelaySend.GmailIntegration.OnSendClick | src/content/components/GmailIntegration.tsx:28-32 | a click on the send button is always prevented and intercepted; the slot/timer invariant is kept |
| DelaySend.GmailIntegration.OnKeydown | src/content/components/GmailIntegration.tsx:35-41 | a keydown is prevented and intercepted iff it is Enter with Ctrl or Meta; any other key leaves the state unchanged; the slot/timer invariant is kept |
| Drafts.ClassificationRules | src/content/utils/draftManager.ts:46-57 | a window is a reply iff its aria-label contains `Reply` or its subject contains `Re:`, and a forward iff they contain `Forward` or `Fwd:`; with neither attribute it is neither |
| Drafts.DraftKeyShape | src/content/utils/draftManager.ts:84-86 | every mirror key passes the cleanup's prefix/suffix test; different ids give different keys; the only other key that passes is `compose_draft` |
| Drafts.DraftInfoRoundTrip | src/content/utils/draftManager.ts:84-110 | a stored draft info reads back as the same record and is truthy |
| Drafts.Without | src/content/utils/draftManager.ts:202 | removing an id from the insertion order keeps exactly the other ids and keeps the order duplicate-free |
| Drafts.RegisterValid | src/content/utils/draftManager.ts:29-43 | registration keeps the map, its insertion order and the entry ids consistent |
| Drafts.RegisterAddsOne | src/content/utils/draftManager.ts:29-43 | registering a fresh id adds exactly that one entry, leaves the others and storage unchanged, appends the id to the order, and tags the element so that the by-element lookup finds the new entry |
| Drafts.UpdateDraftRules | src/content/utils/draftManager.ts:77-90 | on an unknown id nothing changes; on a known id only that entry's draft and its `compose_<id>_draft` storage key are written |
| Drafts.UpdateDraftValid | src/content/utils/draftManager.ts:77-90 | the update keeps the registry well formed |
| Drafts.GetDraftOrder | src/content/utils/draftManager.ts:93-117 | the in-memory draft is returned when truthy; otherwise the stored one, which is cached only for a registered window; otherwise nothing; storage is never written |
| Drafts.GetDraftValid | src/content/utils/draftManager.ts:93-117 | caching a stored draft keeps the registry well formed |
| Drafts.UpdateThenGet | src/content/utils/draftManager.ts:77-117 | what an update records is what the next lookup returns, and it decodes to the same record |
| Drafts.MirrorSurvivesReload | src/content/utils/draftManager.ts:84-110 | a new manager over the same storage still finds the recorded draft |
| Drafts.WaitForDraftRules | src/content/utils/draftManager.ts:120-143 | the save succeeds iff the reply is a success; it then records through the update a draft info carrying this window's id, the reply's draft id and the current time; a failure changes nothing and rejects with a non-empty message |
| Drafts.WaitForDraftValid | src/content/utils/draftManager.ts:120-143 | a save, successful or not, keeps the registry well formed |
| Drafts.FreshDraftSurvives | src/content/utils/draftManager.ts:212-228 | a draft recorded by a save survives any cleanup run within the following hour |
| Drafts.RemoveExact | src/content/utils/draftManager.ts:200-204 | removal drops exactly that entry and its mirror key, keeps everything else, and keeps the registry consistent |
| Drafts.CleanupExact | src/content/utils/draftManager.ts:212-234 | cleanup deletes exactly the mirror-shaped keys whose timestamp is more than an hour before now, and keeps every other entry as it was; a failed read, or a stored `null` under a mirror key, deletes nothing |
| Drafts.CleanupValid | src/content/utils/draftManager.ts:212-234 | cleanup keeps the registry well formed |
| Drafts.StaleKeysMembers | src/content/utils/draftManager.ts:218-225 | the keys the loop collects are exactly the stale ones of the listing, once each |
| Drafts.StaleDraftKeys | src/content/utils/draftManager.ts:213-225 | the loop throws iff some mirror key holds `null`; otherwise it returns exactly the stale keys, without repeats, in listing order |
| Drafts.DistinctCard | src/content/utils/draftManager.ts:207-209 | a duplicate-free listing of a map's keys is as long as the map |
| Drafts.DraftManager.RegisterComposeWindow | src/content/utils/draftManager.ts:29-43 | returns the generated id, and the new state is the register step; the registry stays well formed |
| Drafts.DraftManager.GetComposeWindow | src/content/utils/draftManager.ts:66-68 | returns the entry for the id iff there is one |
| Drafts.DraftManager.GetComposeWindowByElement | src/content/utils/draftManager.ts:71-74 | returns an entry iff the element carries a non-empty id tag naming a registered window |
| Drafts.DraftManager.UpdateDraftInfo | src/content/utils/draftManager.ts:77-90 | the new state is the update step; the registry stays well formed |
| Drafts.DraftManager.GetDraftInfo | src/content/utils/draftManager.ts:93-117 | the state and result are those of the lookup step; the registry stays well formed |
| Drafts.DraftManager.WaitForDraftSave | src/content/utils/draftManager.ts:120-143 | the state and result are those of the save step; the registry stays well formed |
| Drafts.DraftManager.RemoveComposeWindow | src/content/utils/draftManager.ts:200-204 | the new state is the remove step; the registry stays well formed |
| Drafts.DraftManager.GetAllComposeWindows | src/content/utils/draftManager.ts:207-209 | every registered window exactly once, in insertion order |
| Drafts.DraftManager.CleanupOldDrafts | src/content/utils/draftManager.ts:212-234 | only storage changes, and it becomes the cleanup of the old storage; the registry stays well formed |
| Selectors.FirstMatch | src/content/utils/gmailSelectors.ts:107-115 | nothing is found iff no selector matches; what is found comes from a matching selector with no match before it |
| Selectors.FirstMatchEarliest | src/content/utils/gmailSelectors.ts:107-115 | the result is that of the earliest matching selector |
| Selectors.FindElement | src/content/utils/gmailSelectors.ts:107-115 | the loop with early return computes the first match |
| Selectors.FindAllElements | src/content/utils/gmailSelectors.ts:118-125 | the loop returns the matches of every selector concatenated in selector order |
| Selectors.FlatMapAppend | src/content/utils/gmailSelectors.ts:118-125 | the results of two selector lists come out one after the other |
| Selectors.FindAllLength | src/content/utils/gmailSelectors.ts:118-125 | the length is the sum of the per-selector counts, duplicates kept |
| Selectors.FindAllOrder | src/content/utils/gmailSelectors.ts:118-125 | each selector's matches appear intact, after all earlier selectors' matches and before all later ones |
| Selectors.MatchesAny | src/content/utils/gmailSelectors.ts:128-130 | true iff some selector matches |
| Selectors.IsInComposeWindow | src/content/utils/gmailSelectors.ts:135-137 | true iff some compose selector finds an element, which is iff the compose-window lookup finds one |
| Selectors.GetComposeWindow | src/content/utils/gmailSelectors.ts:140-142 | the first match of the compose selectors |
| Selectors.ContainerSelectors | src/content/utils/gmailSelectors.ts:295-302 | six label selectors for the field, in the source's order |
| Selectors.FieldContainerRules | src/content/utils/gmailSelectors.ts:291-335 | the earliest matching label selector wins; without one, the field input's container is used; without both, the earliest matching class selector; with nothing found, the whole compose window |
| Selectors.GetRecipientsFromField | src/content/utils/gmailSelectors.ts:291-339 | the result is the container extraction applied to the chosen container: duplicate-free, and every entry contains `@` and `.`, has no whitespace and is longer than five characters |
| Recipients.FlatMapMember | src/content/utils/gmailSelectors.ts:153-217 | a value is pushed by a `forEach` iff some item contributes it |
| Recipients.AddNew | src/content/utils/gmailSelectors.ts:241 | push-if-absent only appends to the existing list |
| Recipients.AddNewSpec | src/content/utils/gmailSelectors.ts:241 | push-if-absent keeps the existing list, adds each new candidate exactly once and nothing else, and keeps a duplicate-free list duplicate-free |
| Recipients.AddNewAppend | src/content/utils/gmailSelectors.ts:234-283 | push-if-absent over two stages equals push-if-absent over their concatenation |
| Recipients.DedupSpec | src/content/utils/gmailSelectors.ts:220 | `Array.from(new Set(...))` is duplicate-free, has the same members, and leaves a duplicate-free list unchanged |
| Recipients.DedupDistinct | src/content/utils/gmailSelectors.ts:220 | on a duplicate-free list, first-occurrence deduplication is the identity |
| Recipients.KeepSpec | src/content/utils/gmailSelectors.ts:220 | `filter` keeps exactly the members that pass, and keeps a duplicate-free list duplicate-free |
| Recipients.FinalFilterSpec | src/content/utils/gmailSelectors.ts:220 | the closing dedup-then-filter is duplicate-free and holds exactly the list's values that pass the filter |
| Recipients.TrimAll | src/content/utils/gmailSelectors.ts:207 | each piece is trimmed, one for one |
| Recipients.TrimmedPiece | src/content/utils/gmailSelectors.ts:206-209 | a non-empty trimmed piece of a split is a token: no whitespace at either end and no separator |
| Recipients.TrimAllMembers | src/content/utils/gmailSelectors.ts:206-209 | the trimmed list holds exactly the trimmed pieces |
| Recipients.KeepTrimmedMembers | src/content/utils/gmailSelectors.ts:206-209 | trimming and then dropping empty pieces keeps exactly the non-empty trimmed pieces |
| Recipients.KeepTrimmedTokens | src/content/utils/gmailSelectors.ts:206-209 | when no piece holds a separator, every kept piece is a token |
| Recipients.SplitAddressesSpec | src/content/utils/gmailSelectors.ts:206-209 | typed input yields exactly the non-empty trimmed pieces between `,`/`;`, each with no separator and no surrounding whitespace |
| Recipients.PushEach | src/content/utils/gmailSelectors.ts:153-217 | a push-always `forEach` appends every item's candidates in order |
| Recipients.PushEachIfAbsent | src/content/utils/gmailSelectors.ts:234-283 | a push-if-absent `forEach` appends each candidate that is not yet present |
| Recipients.GetAllRecipients | src/content/utils/gmailSelectors.ts:150-221 | the result is duplicate-free and holds exactly the collected candidates that are non-empty and contain `@` |
| Recipients.GetAllRecipientsByField | src/content/utils/gmailSelectors.ts:223-289 | the result is duplicate-free and holds exactly the collected candidates that are non-empty, contain `@` and have no whitespace |
| Recipients.ByFieldLaterStagesAddOnlyNew | src/content/utils/gmailSelectors.ts:234-283 | after the hovercard stage every pushed value is new, distinct from the others and contains `@`; so the working list is duplicate-free when the hovercard stage is |
| Recipients.LaterHaveAt | src/content/utils/gmailSelectors.ts:234-283 | every value pushed after the hovercard stage contains `@` |
| Recipients.ExtractRecipientsFromContainer | src/content/utils/gmailSelectors.ts:341-462 | the result is duplicate-free and holds exactly the collected candidates that contain `@` and `.`, have no whitespace and are longer than five characters |
| Recipients.ContainerLaterStagesAddOnlyNew | src/content/utils/gmailSelectors.ts:351-452 | methods two to ten add only new values, each once |
| Text.IndexOfFrom | src/content/utils/draftManager.ts:46-57 | `indexOf` returns the first occurrence at or after the start, or -1 when there is none |
| Text.Contains | src/content/utils/draftManager.ts:46-57 | `includes` holds iff the pattern occurs somewhere |
| Text.TrimStart | src/content/utils/gmailSelectors.ts:207 | the leading whitespace, and only it, is removed |
| Text.TrimEnd | src/content/utils/gmailSelectors.ts:207 | the trailing whitespace, and only it, is removed |
| Text.TrimShape | src/content/utils/gmailSelectors.ts:207 | `trim` returns a contiguous part of the input with no whitespace at either end, and everything it cuts off is whitespace |
| Text.TrimIdempotent | src/content/utils/gmailSelectors.ts:207 | trimming twice is trimming once |
| Text.TrimEmptyIff | src/content/utils/gmailSelectors.ts:208 | a piece trims to empty iff it is all whitespace |
| Text.Split | src/content/utils/gmailSelectors.ts:206 | `split(/[,;]/)` gives at least one piece, and no piece holds a separator |
| Text.SplitJoin | src/content/utils/gmailSelectors.ts:206 | there is one piece more than separators, and joining the pieces with the separators found gives the input back |
| Text.NatToString | src/content/components/NotificationBanner.tsx:11-12 | decimal printing gives digits only, with no leading zero except for 0 itself |
| Text.NatToStringRoundTrip | src/content/components/NotificationBanner.tsx:11-12 | a printed number reads back as itself |
| Text.NatToStringInjective | src/popup/pages/Index.tsx:101-102 | distinct numbers print differently |
| Text.PadZero | src/content/components/EmailState.tsx:37-39 | `padStart(2, "0")` reaches the width, ends with the input and is preceded only by zeros |
| Banner.PadTwo | src/content/components/NotificationBanner.tsx:12 | a padded seconds count is all digits, reads back as the count, and has two digits below 100 |
| Banner.FormatTimeUnderMinute | src/content/components/NotificationBanner.tsx:7-14 | under a minute the label is the seconds and `s`, with no colon |
| Banner.FormatTimeFromMinute | src/content/components/NotificationBanner.tsx:7-14 | from a minute on, the label ends with a colon and two digits worth the seconds, with no `s` |
| Banner.FormatTimeColons | src/content/components/NotificationBanner.tsx:8-12 | the label has one colon for the hours segment when the hour count is non-zero and one for the minutes segment when the minute count is non-zero, even with hours |
| Banner.FormatTimeDropsZeroMinutes | src/content/components/NotificationBanner.tsx:11 | as written, 65 and 3605 seconds both format as `1:05` |
| Banner.FormatClockShape | src/content/components/NotificationBanner.tsx:7-14 | the corrected label has two colons with hours, one with minutes only, none under a minute, and ends in `s` iff under a minute |
| Banner.HoursParts | src/content/components/NotificationBanner.tsx:8-12 | a label with hours has two colons, no final `s`, and the hours, two-digit minutes and two-digit seconds read back off it |
| Banner.MinutesParts | src/content/components/NotificationBanner.tsx:9-12 | a label with minutes only has one colon, no final `s`, and the minutes and two-digit seconds read back off it |
| Banner.SecondsParts | src/content/components/NotificationBanner.tsx:10-12 | a label under a minute has no colon, ends in `s`, and the seconds read back off it |
| Banner.ReadClockInverts | src/content/components/NotificationBanner.tsx:7-14 | reading the corrected label back gives the remaining time |
| Banner.Decompose | src/content/components/NotificationBanner.tsx:8-10 | a time is its hours, minutes below 60 and seconds below 60 |
| Banner.FormatClockInjective | src/content/components/NotificationBanner.tsx:7-14 | distinct remaining times get distinct corrected labels |
| Banner.FormatClockAgreesBelowHour | src/content/components/NotificationBanner.tsx:7-14 | below an hour the corrected label equals the label as written |
| Banner.QueuedLabelRules | src/content/components/NotificationBanner.tsx:61 | the count reads back off the label, which says `emails` iff the count is not one |
| Banner.BannerView | src/content/components/NotificationBanner.tsx:45-66 | nothing is shown iff the list is empty or the banner root is not in the page; otherwise the count label and the last email's remaining time as `formatTime` prints it |
| Banner.BannerShowsLastBelowHour | src/content/components/NotificationBanner.tsx:66 | while both last emails have under an hour left, equal timers mean equal remaining times |
| Banner.BannerConfusesHours | src/content/components/NotificationBanner.tsx:66 | a queue ending in 65 seconds and one ending in 3605 seconds show the same banner, with timer `1:05` |
| Banner.CorrectedBannerView | src/content/components/NotificationBanner.tsx:45-66 | the same banner with the corrected clock label: shown iff the list is non-empty and the root is in the page |
| Banner.CorrectedBannerShowsLast | src/content/components/NotificationBanner.tsx:66 | with the corrected label, two shown banners with the same timer have last emails with the same remaining time |
| Banner.CorrectedBannerAgreesBelowHour | src/content/components/NotificationBanner.tsx:66 | below an hour the corrected banner is exactly the banner the code renders |
| EmailState.StepCountsDown | src/content/components/EmailState.tsx:23-30 | a step keeps seconds in 0..59; it takes exactly one second off while time is left; 00:00 is a fixpoint; with seconds left minutes stay, and at zero seconds a minute is borrowed as 59 seconds |
| EmailState.StepsCountDown | src/content/components/EmailState.tsx:22-31 | after n ticks the total is the starting total less n, never below zero |
| EmailState.TotalDetermines | src/content/components/EmailState.tsx:23-30 | a well-formed reading is determined by its total |
| EmailState.InitialRunsOut | src/content/components/EmailState.tsx:17-31 | the initial 15:30 reaches 00:00 at exactly tick 930 and stays there |
| EmailState.After | src/content/components/EmailState.tsx:19-20 | when inactive no timer runs and the reading stays at its initial value |
| EmailState.FormatTimeRoundTrip | src/content/components/EmailState.tsx:36-40 | the label is the minutes and the two-digit seconds joined by `:`, both reading back |
| EmailState.FormatTimeInjective | src/content/components/EmailState.tsx:36-40 | distinct well-formed readings get distinct labels |
| EmailState.ReadTimeInverts | src/content/components/EmailState.tsx:36-40 | reading the card label back gives the minutes and seconds |
| EmailState.Render | src/content/components/EmailState.tsx:42-90 | nothing when inactive; an empty fragment iff active with a zero count; otherwise the queued label and the `delayTime` prop printed |
| EmailState.DefaultCard | src/content/components/EmailState.tsx:12-16 | the defaults render `3 emails queued` with timer `60` |
| Popup.FormatDelayCases | src/popup/pages/Index.tsx:100-103 | under a minute `<s>s`; whole minutes `<m>m`; otherwise `<m>m <s>s` |
| Popup.ReplaceZeroSeconds | src/popup/pages/Index.tsx:102 | the `replace(' 0s', '')` removes the seconds part exactly when it is zero |
| Popup.ReadDelayInverts | src/popup/pages/Index.tsx:100-103 | reading a delay label back gives the delay it was made from |
| Popup.FormatDelayInjective | src/popup/pages/Index.tsx:100-103 | distinct delays get distinct labels |
| Popup.AuthChange | src/popup/pages/Index.tsx:84-98 | success marks the popup authenticated and stores the token; a missing or failed reply changes nothing and yields the alert text |
| Popup.HydrateRules | src/popup/pages/Index.tsx:22-60 | dark iff the stored theme is `dark` or falsy; a falsy theme writes `dark`; each other setting changes only to a stored value of the expected type (`delayEnabled`: any defined value) |
| Popup.HydrateEmptyStore | src/popup/pages/Index.tsx:15-38 | on empty storage every setting keeps its default and `dark` is written |
| Popup.HydrateIdempotent | src/popup/pages/Index.tsx:22-60 | a second mount changes nothing more |
| Popup.ToggleThemePersists | src/popup/pages/Index.tsx:62-67 | the toggle flips dark mode, and the next mount reads it back with every other setting unchanged |
| Popup.DelayEnabledPersists | src/popup/pages/Index.tsx:69-72 | the delay toggle is read back by the next mount, and only that setting changes |
| Popup.DelayPersists | src/popup/pages/Index.tsx:74-77 | the chosen delay is read back by the next mount, and only that setting changes |
| Popup.TabPersists | src/popup/pages/Index.tsx:79-82 | the chosen tab is read back by the next mount, and only that setting changes |
| Popup.AuthPersists | src/popup/pages/Index.tsx:84-98 | after a successful reply the popup is authenticated, and the next mount adopts the stored token only when it is a boolean |
| Popup.PopupPage.Mount | src/popup/pages/Index.tsx:22-60 | the new popup state is the hydration of the old one |
| Popup.PopupPage.LoadTheme | src/popup/pages/Index.tsx:33-38 | dark mode and the root class follow a stored `'dark'` or falsy theme, and a falsy theme writes `'dark'` |
| Popup.PopupPage.LoadDelayEnabled | src/popup/pages/Index.tsx:41-43 | a defined stored value is adopted; nothing else changes |
| Popup.PopupPage.LoadDelayDuration | src/popup/pages/Index.tsx:46-48 | a numeric stored value is adopted; nothing else changes |
| Popup.PopupPage.LoadActiveTab | src/popup/pages/Index.tsx:51-53 | a string stored value is adopted; nothing else changes |
| Popup.PopupPage.LoadAuth | src/popup/pages/Index.tsx:56-58 | a boolean stored value is adopted; nothing else changes |
| Popup.PopupPage.ToggleThemeClicked | src/popup/pages/Index.tsx:62-67 | the new popup state is the toggle of the old one |
| Popup.PopupPage.HandleDelayEnabledChange | src/popup/pages/Index.tsx:69-72 | the new popup state is the enabled setter applied |
| Popup.PopupPage.HandleDelayChange | src/popup/pages/Index.tsx:74-77 | the new popup state is the delay setter applied |
| Popup.PopupPage.HandleTabChange | src/popup/pages/Index.tsx:79-82 | the new popup state is the tab setter applied |
| Popup.PopupPage.HandleAuthChange | src/popup/pages/Index.tsx:84-98 | the new popup state and the alert are those of the auth step |
| GmailApi.BuildMimeLayout | src/content/utils/gmailApi.ts:21-30 | the message is the header fields, each CRLF-terminated, then an empty line, then the body verbatim |
| GmailApi.HeaderFieldsShape | src/content/utils/gmailApi.ts:23-27 | To/Cc/Bcc fields appear only for non-empty values, in that order; Subject is always second to last, even when empty; the content type is last |
| GmailApi.BuildMimeEndsWithBody | src/content/utils/gmailApi.ts:27-29 | the message ends with the content-type field, CRLF CRLF and the body |
| GmailApi.TerminatedAppend | src/content/utils/gmailApi.ts:22-28 | CRLF-terminating two lists of fields is terminating each, one after the other |
| GmailApi.AddFieldTerminated | src/content/utils/gmailApi.ts:23-27 | each `headers +=` of a field extends the terminated list by that field |
| GmailApi.AddOptionalField | src/content/utils/gmailApi.ts:23-25 | a conditional `headers +=` extends the list by the optional field |
| GmailApi.ParseTerminated | src/content/utils/gmailApi.ts:22-29 | CRLF-terminated non-empty lines without CR, then an empty line and a body, read back as those lines and that body |
| GmailApi.MimeRoundTrip | src/content/utils/gmailApi.ts:21-30 | if no header value holds a CR, reading the built message back gives exactly the intended header fields and the body |
| GmailApi.Utf8Char | src/content/utils/gmailApi.ts:36 | one character becomes 1 to 4 bytes, and an ASCII character becomes itself |
| GmailApi.EncodeGroup | src/content/utils/gmailApi.ts:36 | three bytes become four alphabet characters |
| GmailApi.Base64EncodeWellFormed | src/content/utils/gmailApi.ts:36 | `btoa` gives four characters per started group of three bytes and a well-formed padded string |
| GmailApi.ReplaceAllChar | src/content/utils/gmailApi.ts:36 | a global one-character `replace` maps each character one for one |
| GmailApi.ToUrlAlphabet | src/content/utils/gmailApi.ts:36 | `+` becomes `-`, `/` becomes `_`, everything else stays |
| GmailApi.FromUrlAlphabet | src/content/utils/gmailApi.ts:36 | the reverse mapping, one for one |
| GmailApi.StripTrailingEquals | src/content/utils/gmailApi.ts:36 | `replace(/=+$/, '')` removes exactly the trailing run of `=` |
| GmailApi.Base64UrlFromBase64 | src/content/utils/gmailApi.ts:36 | the output has no `+`, no `/` and no trailing `=` |
| GmailApi.StripEqualsExact | src/content/utils/gmailApi.ts:36 | stripping an `=` run after a text that does not end in `=` gives that text |
| GmailApi.StripExactlyPadding | src/content/utils/gmailApi.ts:36 | on well-formed base64 the strip removes exactly the padding |
| GmailApi.UnmapCore | src/content/utils/gmailApi.ts:36 | mapping back restores the unpadded part |
| GmailApi.Base64UrlRoundTrip | src/content/utils/gmailApi.ts:36 | a well-formed base64 string maps into the URL-safe alphabet without its padding, and mapping back and re-padding to a multiple of four recovers it |
| GmailApi.UrlUndo | src/content/utils/gmailApi.ts:36 | on well-formed base64, mapping the URL-safe form back and re-padding it gives the original |
| GmailApi.RawMessageUrlSafe | src/content/utils/gmailApi.ts:35-36 | the `raw` value uses only the URL-safe alphabet, and re-padding it recovers the standard base64 of the message's UTF-8 bytes |
| Background.ErrorText | src/background/index.ts:7 | an `Error` with a message is reported as `Error: <message>` |
| Background.ScheduleEmailViaGmailApi | src/background/index.ts:36-67 | a token failure throws before any request; the draft request carries the built raw message; the send request follows a creation iff the creation succeeded, and carries the new draft's id and the schedule time; a failed send throws; otherwise the send response is the result |
| Background.ReplyFor | src/background/index.ts:5-7 | the reply is `{success: true, result}` on resolution or `{success: false, error}` on rejection, never both |
| Background.OnMessage | src/background/index.ts:3-10 | only `SCHEDULE_EMAIL` is handled, returning true and replying once, with success iff the send succeeded; a successful draft creation is always followed by the send request for the new draft; any other message gets no reply and causes no request |

The builder in `src/background/index.ts:24-33` is the same code as
`src/content/utils/gmailApi.ts:21-30`. One Dafny function,
`GmailApi.BuildMimeMessage`, models both, and `Background` imports it. The
same holds for the encoding chain at `src/background/index.ts:39-40`.

## Left out

- `chrome.storage.local`, `chrome.runtime.sendMessage`, `chrome.identity` and `fetch` are I/O. They appear only as maps, oracle functions and parameters. `getOAuthToken` (`gmailApi.ts:4-18`, `background/index.ts:12-22`) is a parameter giving the token or the error.
- `sendEmailViaGmailApi` (`gmailApi.ts:33-49`) is an HTTP call. Only the `raw` value it sends (`GmailApi.RawMessage`) is modelled; the delayed send is an entry in a log.
- `setInterval`, `setTimeout` and wall-clock time are not modelled. A tick is an explicit call and a clock reading is a parameter.
- Real DOM querying and the selector strings of the shared `GmailSelectors` table (`gmailSelectors.ts:2-104`) are host-UI heuristics. Queries are oracles, and the table's lists are parameters.
- The recipient scans assume the query results the code reads. The CSS semantics of the selectors, and the relation between what different selectors return, are not modelled.
- `getSendButton`, `extractEmailData` and `observeComposeWindows` are not defined in the source files shown. The send button and the email data are parameters.
- React mechanics are not modelled: rendering, portals, hook scheduling, and the `useEffect` interval that injects the banner root. `Banner.BannerView` takes whether the root is in the page as the parameter `rootReady`.
- Stale closures are not modelled. The listeners capture the first render's `handleInterceptSend`; the model applies the guard of `GmailIntegration.tsx:50` to the current state.
- `generateComposeWindowId` (`draftManager.ts:24-26`) uses time and randomness. Its id is a parameter, and `Drafts.RegisterAddsOne` assumes it is fresh.
- The unused `draftOrderCounter` is not modelled. Neither are `scheduleDraft`, `sendDraft` and `getLatestDraftIdWithOrder` of `draftManager.ts`, which only pass messages.
- Floating-point times are not modelled. `formatTime` and `formatDelay` take whole non-negative seconds.
- `btoa(unescape(encodeURIComponent(...)))` is modelled as UTF-8 encoding followed by standard base64. Lone surrogates, which make `encodeURIComponent` throw, are not modelled, because Dafny's `char` has none.
- String lengths count Unicode scalar values, not UTF-16 code units. This matters only in `extractRecipientsFromContainer`'s `length > 5` test and for characters outside the Basic Multilingual Plane.
- `Drafts.NumberOf` models JavaScript's number conversion for the cleanup's `<` comparison. It treats every string as NaN. JavaScript instead converts a numeric string to its number, and `""` or a whitespace-only string to 0. So a mirror whose timestamp is such a string and older than the cutoff (`""` counts as time 0) is deleted by the code but kept by `Drafts.Cleanup`.
- `Storage.Value` has no array case. The code stores no arrays, and an array read back would be truthy and fail every `typeof` test of `Index.tsx:33-58`, as an object does.
- Each asynchronous method is modelled as one atomic step; interleavings at its `await`s are not. Two consequences follow. `getDraftInfo` reads the window's entry before awaiting storage (`draftManager.ts:95-108`), so a `removeComposeWindow` during that await would be undone by the cache write, which re-adds the window at the end of the order; `Drafts.GetDraft` caches only for a window still registered. `cleanupOldDrafts` reads storage (`draftManager.ts:217`) before removing keys (`draftManager.ts:228`), so a mirror refreshed by `waitForDraftSave` in between would still be deleted; `Drafts.FreshDraftSurvives` holds for the atomic cleanup only.
- `Storage.Value` holds only whole numbers (`Num(n: int)`). A non-integer setting such as `delayDuration: 1.5` cannot be stored in the model, although `typeof === 'number'` (`Index.tsx:46`) accepts it on hydration.
- A stored draft value that is not valid JSON, and a background response that fails to parse, are not modelled.
- There is no persisted, deadline-based scheduler of several delayed emails: the code keeps a single decrementing counter, and so does the model.
- `EmailState`'s `formatTime` label is modelled and proved, but its call in the render (`EmailState.tsx:77`) is commented out. `EmailState.Render` therefore shows the `delayTime` prop, as the code does.
- `Recipients.GetAllRecipientsByField`: the working list is not proved duplicate-free before the final `Set`. Its first stage (`gmailSelectors.ts:226-232`) pushes without the presence check, so the list can hold duplicates. What is proved is that the later stages add only new values, and that the output is duplicate-free.
- The test and demo scripts, `manifest.config.ts` and `src/content/gmail.tsx` are bootstrap and I/O with no logic of their own.

## Findings

| source | as written | input that shows it | evidently intended | confidence | as-written member | corrected member |
|---|---|---|---|---|---|---|
| src/content/components/NotificationBanner.tsx:11-12 | the minutes segment is printed only when the minute count is non-zero, even when there are hours, and minutes are not padded, so an hour and five seconds looks like a minute and five seconds | 65 and 3605 both give `1:05` | `H:MM:SS` with hours, `M:SS` below an hour, `<s>s` below a minute, with distinct times getting distinct labels | not executed | Banner.FormatTimeDropsZeroMinutes | Banner.FormatClockInjective |

`Banner.FormatTime` models the code as written. Its lemmas
`FormatTimeColons` and `FormatTimeDropsZeroMinutes` show the collision.
`Banner.FormatClock` is the corrected label. `FormatClockInjective` proves that
it is injective, and `FormatClockAgreesBelowHour` proves that it differs from
the code only when there are hours. The banner view, `Banner.BannerView`,
renders the label as written, and `BannerConfusesHours` shows two queues
with the same banner. `Banner.CorrectedBannerView` renders the corrected
label; `CorrectedBannerShowsLast` proves its timer determines the last
email's remaining time, and `CorrectedBannerAgreesBelowHour` that it agrees
with the code's banner below an hour.
