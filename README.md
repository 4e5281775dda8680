# CS2-SimpleAdmin connect-time ban admission, in Dafny

This project models how CS2-SimpleAdmin decides whether a connecting player may stay on
the server, and proves properties of that model. Two paths take part.

**The BanCheck module** runs this pipeline on every connection:
- It skips the check when no connection string is configured.
- It resolves the player in the slot, retrying at most `ResolvePlayerMaxAttempts` times (default 20). A slot counts as resolved only when it holds a valid, non-bot player whose Steam id is neither blank nor `"0"`.
- It clears the native ban list with `removeid` and `writeid`.
- It evaluates the player's bans against the `sa_bans` table (`EvaluateBanStateAsync`). First, an UPDATE expires every ACTIVE timed row whose end has passed. Then the SELECTs read the active Steam count and the active IP count, the highest-id detail row for each tier, and the latest Steam unban id.
- The verdict then says whether the player is blocked. An IP ban is lifted when a later Steam unban of the same player exists ("bypass").
- When the verdict arrives, the module re-reads the slot. It drops a verdict for a slot that another player has taken. Otherwise it applies the verdict: disconnect (with a second clear of the native list on a timer), a join message, or nothing.

The config fields are modelled too: `CheckIpBans`, `UseServerIdScope`, `ResolvePlayerMaxAttempts` and `SendJoinMessage`, with their shipped defaults.

**The main plugin** (file `Events.cs`) holds four pieces:
- `EnforceBanOnConnect`. It resolves the slot with at most 10 retries. The ban manager's answer takes precedence over the ban cache; when the manager throws, the cache is the fallback. The player is admitted, or kicked with `REJECT_BANNED`.
- The history of disconnected players that `OnClientDisconnect` keeps. It is bounded, with one entry per Steam id.
- The `HookUmChat` recipient filter for gagged or silenced authors.
- One piece of the command listener: the two-slot chat-log dedupe (`firstMessage`/`secondMessage`).

The modules:
- `Wrappers`: `Option`.
- `Text`: the .NET string operations the code relies on:
  - `char.IsWhiteSpace` with .NET's exact character list
  - `IsNullOrWhiteSpace`
  - `Split(':')[0]`
  - ordinal `Contains` and `StartsWith`
  - `TrimStart`/`TrimEnd`
  - `ToLowerInvariant` on ASCII
- `BanStore`: `sa_bans`, the WHERE clauses, the in-place expiry sweep over an `array`, and the verdict.
- `Slots`: the retry loop that both paths use.
- `BanCheck`: the module's connect pipeline.
- `Events`: the main plugin's handlers. The history, the chat message and the dedupe slots are classes whose methods update their fields.

A central fact is proved in `BanStore.SweepInvisibleToQueries`. The sweep changes only rows that the "active" predicate already rejects. So the tiers, the detail rows and the unban id are the same as on the table before the sweep. Only `ExpiredBanUpdated` and the stored table show the sweep.

Source paths below are relative to the repository root.

## Model

| member | source | states |
|---|---|---|
| Text.BeforeFirst | Modules/CS2-SimpleAdmin_BanCheckModule/CS2-SimpleAdmin_BanCheckModule.cs:350 | `Split(':')[0]` is a prefix of the input without the separator, ending at the end or at the first separator |
| Text.TrimStart | CS2-SimpleAdmin/Events.cs:545 | the result is a suffix of the input, drops only white space, and starts with a non-white-space character |
| Text.TrimEnd | CS2-SimpleAdmin/Events.cs:546 | the result is a prefix of the input, drops only white space, and ends with a non-white-space character |
| Text.Trim | CS2-SimpleAdmin/Events.cs:545-546 | the trimmed message is the text of the input between its leading and its trailing white space: everything before and after it is white space, and it neither starts nor ends with white space |
| BanStore.Count | Modules/CS2-SimpleAdmin_BanCheckModule/CS2-SimpleAdmin_BanCheckModule.cs:219-235 | `COUNT(*)` is positive exactly when some row satisfies the WHERE clause, and never exceeds the row count |
| BanStore.Highest | Modules/CS2-SimpleAdmin_BanCheckModule/CS2-SimpleAdmin_BanCheckModule.cs:237-276 | `ORDER BY id DESC LIMIT 1` / `MAX(id)`: none exactly when nothing is selected; otherwise a selected row of the table that no selected row's id exceeds |
| BanStore.Selects | Modules/CS2-SimpleAdmin_BanCheckModule/CS2-SimpleAdmin_BanCheckModule.cs:209-276 | the WHERE clauses: the sweep takes ACTIVE timed rows of the player whose end has passed; the active clauses take ACTIVE rows that are permanent, without an end or not yet ended, by Steam id, by IP, or by either; the unban clause takes UNBANNED rows of the Steam id; all within the server scope when it applies. No ensures: `BanStore.SweepAndActiveComplementary` and `BanStore.NegativeDurationNeitherSweptNorActive` state how the clauses relate |
| BanStore.Swept | Modules/CS2-SimpleAdmin_BanCheckModule/CS2-SimpleAdmin_BanCheckModule.cs:209-217 | the UPDATE sets exactly the selected rows to EXPIRED and leaves every other row as it was |
| BanStore.ExpireBans | Modules/CS2-SimpleAdmin_BanCheckModule/CS2-SimpleAdmin_BanCheckModule.cs:209-217 | the in-place sweep over the table leaves `Swept` of the old table and returns the affected-row count |
| BanStore.Verdict | Modules/CS2-SimpleAdmin_BanCheckModule/CS2-SimpleAdmin_BanCheckModule.cs:291-314 | the result fields from the swept table: Steam-banned and IP-banned from the counts, the bypass when IP-banned, not Steam-banned, and the latest Steam unban id is at least the IP detail row's id (or there is none), blocked on a Steam ban or an IP ban without bypass. No ensures: `BanStore.VerdictConsistent`, `BanStore.BypassExactly` and `BanStore.BypassOnlyLiftsIpBans` state its properties |
| BanStore.Evaluation | Modules/CS2-SimpleAdmin_BanCheckModule/CS2-SimpleAdmin_BanCheckModule.cs:278-314 | one evaluation: the queries run on the swept table, and the expired flag comes from the sweep's row count. No ensures: `BanStore.SweepInvisibleToQueries` and `BanStore.ReevaluationSameVerdict` state its properties |
| BanStore.SweepIdempotent | Modules/CS2-SimpleAdmin_BanCheckModule/CS2-SimpleAdmin_BanCheckModule.cs:209-217 | running the UPDATE twice is the same as running it once |
| BanStore.SweptHasNothingToExpire | Modules/CS2-SimpleAdmin_BanCheckModule/CS2-SimpleAdmin_BanCheckModule.cs:209-217 | after a sweep the UPDATE affects zero rows |
| BanStore.ExpiredUpdatedIffSomeRowDue | Modules/CS2-SimpleAdmin_BanCheckModule/CS2-SimpleAdmin_BanCheckModule.cs:279-308 | `ExpiredBanUpdated` holds exactly when some row was due for expiry |
| BanStore.SweepAndActiveComplementary | Modules/CS2-SimpleAdmin_BanCheckModule/CS2-SimpleAdmin_BanCheckModule.cs:209-235 | for an in-scope ACTIVE row of the player with a non-negative duration, it is either expired by the sweep or active afterwards, never both and never neither |
| BanStore.NegativeDurationNeitherSweptNorActive | Modules/CS2-SimpleAdmin_BanCheckModule/CS2-SimpleAdmin_BanCheckModule.cs:209-223 | an ACTIVE row with a negative duration and a past end stays ACTIVE yet is not counted as active |
| BanStore.NullEndNeverExpires | Modules/CS2-SimpleAdmin_BanCheckModule/CS2-SimpleAdmin_BanCheckModule.cs:209-223 | a timed ACTIVE row with a NULL end is never swept and stays active |
| BanStore.SweptSameAnswers | Modules/CS2-SimpleAdmin_BanCheckModule/CS2-SimpleAdmin_BanCheckModule.cs:209-276 | every SELECT gives the same count and the same highest row before and after the sweep |
| BanStore.SweepInvisibleToQueries | Modules/CS2-SimpleAdmin_BanCheckModule/CS2-SimpleAdmin_BanCheckModule.cs:279-314 | the verdict computed on the swept table equals the verdict on the unswept table |
| BanStore.ReevaluationSameVerdict | Modules/CS2-SimpleAdmin_BanCheckModule/CS2-SimpleAdmin_BanCheckModule.cs:195-314 | evaluating again right after an evaluation gives the same result, except that nothing is reported expired |
| BanStore.SteamBanAlwaysBlocks | Modules/CS2-SimpleAdmin_BanCheckModule/CS2-SimpleAdmin_BanCheckModule.cs:291-300 | one active in-scope Steam row makes the player Steam-banned and blocked, and rules out the bypass |
| BanStore.VerdictConsistent | Modules/CS2-SimpleAdmin_BanCheckModule/CS2-SimpleAdmin_BanCheckModule.cs:284-314 | on every table: blocked implies a tier is banned; a Steam ban implies blocked; the bypass holds only for an IP-banned, not Steam-banned, unblocked player; each tier flag holds exactly when its detail row exists; the combined detail row exists exactly when some tier is banned and its id is at least each tier's |
| BanStore.IpTierOffWhenNotChecked | Modules/CS2-SimpleAdmin_BanCheckModule/CS2-SimpleAdmin_BanCheckModule.cs:281-300 | with IP checking off there is no IP ban, no IP detail row and no bypass, and the player is blocked exactly when Steam-banned |
| BanStore.BypassExactly | Modules/CS2-SimpleAdmin_BanCheckModule/CS2-SimpleAdmin_BanCheckModule.cs:270-298 | the bypass holds exactly when, in the table, IP checking is on, some active IP row exists, no active Steam row exists, and some UNBANNED row of the Steam id has an id no active IP row exceeds |
| BanStore.BypassOnlyLiftsIpBans | Modules/CS2-SimpleAdmin_BanCheckModule/CS2-SimpleAdmin_BanCheckModule.cs:293-300 | the bypass admits an IP-banned player and nothing else; blocked exactly when Steam-banned or IP-banned without bypass |
| BanStore.UnrelatedRowIgnored | Modules/CS2-SimpleAdmin_BanCheckModule/CS2-SimpleAdmin_BanCheckModule.cs:198-207 | a row from another server under scoping, or for neither the Steam id nor the IP, is not touched by the sweep and does not change the result |
| Slots.ResolveStep | Modules/CS2-SimpleAdmin_BanCheckModule/CS2-SimpleAdmin_BanCheckModule.cs:105-127 | one callback resolves exactly when the slot holds an accepted player; otherwise it schedules the next attempt exactly when `attempt < maxAttempts`, and gives up exactly when the bound is reached |
| Slots.Resolve | Modules/CS2-SimpleAdmin_BanCheckModule/CS2-SimpleAdmin_BanCheckModule.cs:101-127 | resolution always ends, within the bound; a resolved player is the accepted player of the slot at that attempt, and every earlier attempt found none; giving up happens exactly at the bound |
| BanCheck.DetectDatabaseKind | Modules/CS2-SimpleAdmin_BanCheckModule/CS2-SimpleAdmin_BanCheckModule.cs:331-343 | MySQL exactly when the lower-cased connection string contains one of `server=`, `uid=`, `user id=`, `port=` |
| BanCheck.DetectionIgnoresCase | Modules/CS2-SimpleAdmin_BanCheckModule/CS2-SimpleAdmin_BanCheckModule.cs:333 | detection gives the same kind for a string and for its lower-cased form |
| BanCheck.WithoutEqualsSignIsSqlite | Modules/CS2-SimpleAdmin_BanCheckModule/CS2-SimpleAdmin_BanCheckModule.cs:334-342 | a connection string without `=` is SQLite |
| BanCheck.ExtractIp | Modules/CS2-SimpleAdmin_BanCheckModule/CS2-SimpleAdmin_BanCheckModule.cs:345-352 | no address exactly for a null or blank input or a blank part before `:`; otherwise a non-blank prefix without `:` that ends at the end or at the first `:` |
| BanCheck.ExtractIpIdempotent | Modules/CS2-SimpleAdmin_BanCheckModule/CS2-SimpleAdmin_BanCheckModule.cs:345-352 | extracting from an extracted address changes nothing |
| BanCheck.ExtractIpExamples | Modules/CS2-SimpleAdmin_BanCheckModule/CS2-SimpleAdmin_BanCheckModule.cs:345-352 | `10.0.0.5:27005` gives `10.0.0.5`; an address without a port is kept |
| BanCheck.ExtractIpBlankExamples | Modules/CS2-SimpleAdmin_BanCheckModule/CS2-SimpleAdmin_BanCheckModule.cs:345-352 | a blank host part before the port, or an empty string, gives no address |
| BanCheck.Translate | Modules/CS2-SimpleAdmin_BanCheckModule/CS2-SimpleAdmin_BanCheckModule.cs:380-384 | the localized text when it is present and not blank, otherwise the fallback; never blank with a non-blank fallback |
| BanCheck.PlayerQuery | Modules/CS2-SimpleAdmin_BanCheckModule/CS2-SimpleAdmin_BanCheckModule.cs:197-207 | the IP is bound exactly when `CheckIpBans` is on and the IP is not blank; the server id exactly when `UseServerIdScope` is on and the server id is known |
| BanCheck.DefaultConfigChecksEverything | Modules/CS2-SimpleAdmin_BanCheckModule/PluginConfig.cs:11-21 | under the shipped defaults the IP is bound whenever it is not blank, the query is scoped whenever the server id is known, join messages are on, and resolution retries up to 20 times |
| BanCheck.EvaluateBanState | Modules/CS2-SimpleAdmin_BanCheckModule/CS2-SimpleAdmin_BanCheckModule.cs:195-314 | the table is swept unless the store is unreachable; the result is the evaluation of the old table when the store works, and none on any store error |
| BanCheck.ApplyVerdict | Modules/CS2-SimpleAdmin_BanCheckModule/CS2-SimpleAdmin_BanCheckModule.cs:145-190 | no action on an evaluation error; dropped exactly when the slot no longer holds the same valid human player; blocked exactly when that player's verdict blocks; admitted exactly when it does not, with a notice exactly when `SendJoinMessage` is on, and the "ban expired" notice exactly when a ban was expired |
| BanCheck.Identified | Modules/CS2-SimpleAdmin_BanCheckModule/CS2-SimpleAdmin_BanCheckModule.cs:105-127 | the slot is resolved only for a valid non-bot player whose Steam id is neither blank nor `"0"`. No ensures: `Slots.Resolve` and `BanCheck.OnClientConnect` use it as the acceptance test |
| BanCheck.SameSession | Modules/CS2-SimpleAdmin_BanCheckModule/CS2-SimpleAdmin_BanCheckModule.cs:147-152 | the slot still holds a valid non-bot player with the evaluated Steam id. No ensures: `BanCheck.ApplyVerdict` and `BanCheck.ReusedSlotVerdictDropped` state its effect |
| BanCheck.ClearNativeBanIdList | Modules/CS2-SimpleAdmin_BanCheckModule/CS2-SimpleAdmin_BanCheckModule.cs:354-368 | `removeid` for the player, then `writeid`. No ensures: `BanCheck.DisconnectBlockedPlayer` and `BanCheck.OnClientConnect` state where it appears |
| BanCheck.Effects | Modules/CS2-SimpleAdmin_BanCheckModule/CS2-SimpleAdmin_BanCheckModule.cs:172-189 | a block disconnects, an admission with a notice prints the translated notice, and every other outcome does nothing. No ensures: `BanCheck.OnlyBlockDisconnects` states its property |
| BanCheck.DisconnectBlockedPlayer | Modules/CS2-SimpleAdmin_BanCheckModule/CS2-SimpleAdmin_BanCheckModule.cs:370-378 | five actions: `removeid` and `writeid` now, the one disconnect, then `removeid` and `writeid` from the timer; no other action disconnects |
| BanCheck.OnlyBlockDisconnects | Modules/CS2-SimpleAdmin_BanCheckModule/CS2-SimpleAdmin_BanCheckModule.cs:172-189 | the effects of an outcome contain a disconnect exactly when the outcome is a block |
| BanCheck.ReusedSlotVerdictDropped | Modules/CS2-SimpleAdmin_BanCheckModule/CS2-SimpleAdmin_BanCheckModule.cs:147-152 | a verdict for a slot that is empty or holds another player is dropped, with no action |
| BanCheck.SteamBannedPlayerDisconnected | Modules/CS2-SimpleAdmin_BanCheckModule/CS2-SimpleAdmin_BanCheckModule.cs:172-177 | a player with an active in-scope Steam ban row who is still in the slot is blocked, whatever IP the query binds |
| BanCheck.ExpiredBanAdmittedWithNotice | Modules/CS2-SimpleAdmin_BanCheckModule/CS2-SimpleAdmin_BanCheckModule.cs:180-189 | with join messages on, a player whose only bans are due for expiry is admitted with the "ban expired" notice |
| BanCheck.UnbannedPlayerOnBannedAddressAdmitted | Modules/CS2-SimpleAdmin_BanCheckModule/CS2-SimpleAdmin_BanCheckModule.cs:293-300 | a player without a Steam ban, on an IP-banned address, whose Steam unban is no older than every active IP ban, is bypassed and admitted |
| BanCheck.OnClientConnect | Modules/CS2-SimpleAdmin_BanCheckModule/CS2-SimpleAdmin_BanCheckModule.cs:89-193 | the whole connect path: skipped exactly when the connection string is blank, with no effect; bounded retries; gives up only at the bound and with no effect; otherwise the native list is cleared, the table is swept per the store's health, and the outcome and actions are those of the verdict on the resolved player's query |
| Events.PlayerIp | CS2-SimpleAdmin/Events.cs:233 | the live address before `:` when the host reports one, otherwise the address seen at connect |
| Events.IpCheckEnabled | CS2-SimpleAdmin/Events.cs:235 | IP checking needs a non-zero ban type and a non-blank IP. No ensures: `Events.MergeTiers` states its effect on the IP tier |
| Events.MergeTiers | CS2-SimpleAdmin/Events.cs:237-268 | the ban manager's answer wins for each tier; its failure, or no manager, leaves the cached flag; the IP tier is never active with IP checking off |
| Events.DecideOnConnect | CS2-SimpleAdmin/Events.cs:225-304 | no check exactly when neither a cache nor a ban manager exists; otherwise allowed exactly when neither merged tier is active; a kick refreshes the cache exactly when a cache exists |
| Events.EnforceBanOnConnect | CS2-SimpleAdmin/Events.cs:198-305 | started only with a cache or a ban manager; at most 10 retries, each finding no valid human; unresolved only at the bound; otherwise the decision for the resolved player with the initial IP before `:` |
| Events.ManagerOverridesCache | CS2-SimpleAdmin/Events.cs:241-268 | a ban manager that clears both tiers admits the player whatever the cache says |
| Events.FailingManagerFallsBackToCache | CS2-SimpleAdmin/Events.cs:250-266 | when both ban manager calls throw, the decision is the one the cache alone gives |
| Events.IndexOf | CS2-SimpleAdmin/Events.cs:143 | `FirstOrDefault` by Steam id: the first matching position, or none when no entry matches |
| Events.Upsert | CS2-SimpleAdmin/Events.cs:143-155 | the new entry is in the history; the length grows only for a new Steam id; every entry of another player stays in its place |
| Events.Recorded | CS2-SimpleAdmin/Events.cs:139-155 | the oldest entry is removed when the history holds at least the limit, then the entry is upserted; the removal on an empty history throws. No ensures: the `Events.Recorded…` lemmas below state its properties |
| Events.RecordedFailsOnlyOnEmptyZeroLimit | CS2-SimpleAdmin/Events.cs:137-187 | `RemoveAt(0)` throws, leaving the history unchanged, exactly for an empty history with a limit of at most zero |
| Events.UpsertKeepsUnique | CS2-SimpleAdmin/Events.cs:143-155 | updating or appending keeps Steam ids unique and grows the list only for a new player |
| Events.RecordedKeepsUnique | CS2-SimpleAdmin/Events.cs:139-155 | a disconnect keeps Steam ids unique in the history |
| Events.RecordedWithinLimit | CS2-SimpleAdmin/Events.cs:139-155 | with a positive limit, a history within the limit stays within it |
| Events.RecordedHoldsEntry | CS2-SimpleAdmin/Events.cs:139-155 | afterwards the new entry is in the history and is the only entry for its Steam id; every other entry was there before |
| Events.RecordedKeepsOthers | CS2-SimpleAdmin/Events.cs:139-155 | every entry for another player survives, except the oldest when the history was full |
| Events.FullHistoryShrinksOnReturningPlayer | CS2-SimpleAdmin/Events.cs:139-150 | when the history is full and a player already in it (not the oldest) disconnects again, the oldest entry is still removed, so the history shrinks by one |
| Events.DisconnectedHistory.Find | CS2-SimpleAdmin/Events.cs:143 | the forward scan finds the position `IndexOf` describes |
| Events.DisconnectedHistory.OnClientDisconnect | CS2-SimpleAdmin/Events.cs:116-155 | nothing for a missing, invalid, HLTV or bot player; otherwise the history becomes the recorded one, or stays as it was when `RemoveAt(0)` throws; Steam ids stay unique |
| Events.OnlyAuthor | CS2-SimpleAdmin/Events.cs:455-461 | every remaining recipient is the author |
| Events.OnlyAuthorKeepsAuthor | CS2-SimpleAdmin/Events.cs:455-461 | the remaining recipients are exactly the author's occurrences in the original list |
| Events.UserMessage.RemoveAllExcept | CS2-SimpleAdmin/Events.cs:455-461 | the backward in-place removal leaves exactly `OnlyAuthor` of the old recipients |
| Events.ChatHookDecision | CS2-SimpleAdmin/Events.cs:438-453 | only a gagged or silenced valid human author with a loaded localizer is affected; the message is suppressed exactly when the penalty end (from the gag when gagged) is known and no chat trigger starts the message, and delivered to the author alone exactly when it is known and a trigger starts it |
| Events.GagWithoutEndPassesThrough | CS2-SimpleAdmin/Events.cs:444-449 | a gag without an end hides a silence that has one, and the message passes untouched |
| Events.HasTrigger | CS2-SimpleAdmin/Events.cs:452-453 | some public or silent chat trigger starts the message. No ensures: `Events.ChatHookDecision` states its effect |
| Events.HookUmChat | CS2-SimpleAdmin/Events.cs:438-463 | Stop exactly when the decision suppresses; the recipients become author-only exactly when the decision says so, and are otherwise unchanged |
| Events.IsChatLogCandidate | CS2-SimpleAdmin/Events.cs:541-550 | a `say` or `say_team` command on a panel-linked server, with a valid message that has more letters than the minimum when one is set. No ensures: `Events.ChatDedupe.LogChat` states its effect |
| Events.StoredMessages | CS2-SimpleAdmin/Events.cs:555-567 | the messages stored for a run of candidates: each one unless duplicates are excluded and it repeats the previous candidate. No ensures: `Events.AllStoredWithoutFilter`, `Events.FilterStoresNoRepeats` and `Events.StoredMessagesAppend` state its properties |
| Events.StoredSingle | CS2-SimpleAdmin/Events.cs:558 | a single message is stored unless duplicates are excluded and it repeats the previous one |
| Events.AllStoredWithoutFilter | CS2-SimpleAdmin/Events.cs:555-567 | without the duplicate filter, every logged candidate is stored |
| Events.FilterStoresNoRepeats | CS2-SimpleAdmin/Events.cs:555-567 | with the duplicate filter, no two stored messages in a row are equal, and the first differs from the message seen before |
| Events.StoredMessagesAppend | CS2-SimpleAdmin/Events.cs:555-567 | a run extended by one candidate stores what the run stored, then what a single step from the newest slot stores |
| Events.SayTeamMarksTeamChat | CS2-SimpleAdmin/Events.cs:565 | of `say` and `say_team`, only `say_team` contains "say_team" |
| Events.ChatDedupe.LogChat | CS2-SimpleAdmin/Events.cs:541-569 | a non-candidate leaves both slots and stores nothing; a candidate shifts the trimmed message into the newest slot, and stores exactly what `StoredMessages` gives for one step, flagged as team chat exactly for `say_team` |

## Left out

- Database I/O, drivers and connections (`OpenConnectionAsync`, Dapper, MySQL and SQLite). The table is a sequence or array of rows, and a failing store is the `StoreHealth` parameter.
- Clocks. `CURRENT_TIMESTAMP` and `Time.ActualDateTime()` are the integer parameter `now`.
- MySQL collation and type coercion. Column comparisons are exact equality of the modelled values.
- Float delays (`ResolveRetryDelaySeconds`, `Math.Max(0.01f, …)`, the 0.1 s and 0.10 s timers), `Server.NextWorldUpdate` and `Task.Run`. Only the order of the callbacks is modelled. The slot contents per callback are the parameters `slotAt` and `slotOnVerdict`.
- Logging (`Logger`, `BanCheckLog`) and the content of log messages.
- Localizer lookups. These are the `localize` parameter and a `localizerLoaded` flag.
- The Steam id 3 conversion in `ClearNativeBanIdList`; `removeid` carries the Steam id as given. Its catch branch is not modelled either.
- Internals of the ban cache, ban manager, penalty manager, admin manager and permission manager. These are oracles whose answers are parameters (`CacheAnswers`, `ManagerAnswers`, `Penalty`). The re-query of the cache inside a catch is assumed to give the same answer as the first query.
- The cache refresh after a kick runs asynchronously. It appears only as a flag in `Kicked(refreshCache)`.
- Events.EnforceBanOnConnect: reads the cache and the ban manager once, at connect time. The source reads them again inside the callback, which matters only if they change in between.
- Events.PlayerIp: `player.IpAddress?.Split(':')[0]` is never null, so a blank live address does not fall back to the initial address. This differs from BanCheck's `ExtractIp(…) ?? initialIp`, and the model follows each file as written.
- The rest of `OnClientDisconnect`: the broadcast flag, the removal from the player caches, `mm_removeexcludeslot`, and the expired-admin cleanup. Steam ids are compared as strings where the source compares `SteamID` values.
- Events.DisconnectedHistory: entries are values. The source updates a shared `DisconnectedPlayer` object in place, which is observable only through other references to it.
- The other branches of the command listener: `AdditionalCommandsToLog`, `callvote`, admin chat, `@` commands, the gag checks, and `/` `!` prefixes. The chat log call itself is not modelled: `LogChat` returns the entry it would store.
- `IsStringValid` and `CountLetters`. These are the parameters `stringValid` and `letterCount`.
- Text.IsWhiteSpace: covers .NET's `char.IsWhiteSpace` list for a single UTF-16 unit. No Unicode category tables are modelled.
- Text.ToLower: lowers ASCII letters only, whereas `ToLowerInvariant` also lowers non-ASCII letters. The markers that `DetectDatabaseKind` looks for are ASCII.
- Text.StartsWith: ordinal. `StartsWith(string)` in .NET is culture-sensitive, and culture-sensitive matching is not modelled: ignorable characters, canonical equivalence (a precomposed letter matching its decomposed form) and contractions can make a trigger match a message that the ordinal comparison rejects.
- The rest of the repository: game-event handlers unrelated to admission, the RedisInform module and the menus.
