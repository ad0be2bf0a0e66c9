# Dashboard scheduling, recovery, layout and policy, proved

A Dafny model of the logic behind the Open Console Gateway dashboard and its
integrations, with proofs of what that logic is for. `dafny verify dfyconfig.toml`
checks the whole project.

Code that changes state step by step is modelled twice: as a machine (a state, its
events, and runs of any length in any order) over which the theorems are proved, and
as a class or method with the source's own fields and loops. The scheduler and the
auto-refresh keep a ghost log and are proved to perform only runs of their machine; the
handoff records every disk state it passes through; the control plane is proved, operation
by operation, to follow the functions its machine is made of. Code that computes a value
from loops is a method proved against a specification; code made of expressions is a
function with lemmas.

| file | what it models |
|---|---|
| `RefreshScheduler.dfy`, `RefreshRequests.dfy`, `SchedulerObject.dfy` | the account refresh scheduler: bounded pool, exclusive jobs, single flight, promotion, order, reset |
| `CredentialHandoff.dfy`, `HandoffRuntime.dfy` | the credential handoff between Host and plugin: live file, claim files swept oldest first (the other order would let an older Key overwrite a newer one, `CredentialHandoff.NewestFirstWouldRegress`), store, crashes |
| `PolicyText.dfy`, `PolicyDraft.dfy`, `PolicyReading.dfy`, `PolicyOverlay.dfy` | temporary-unavailability rules: form parser and printer, three-layer overlay, validation |
| `RoutingCards.dfy`, `GroupMove.dfy` | routing layout edits, whose order is the persisted priority |
| `AliasIndex.dfy`, `AliasRanks.dfy` | the Alias table's indexes against the scans they replace |
| `ModelMatrix.dfy`, `MatrixToggle.dfy`, `MatrixRows.dfy`, `PreferredChoice.dfy` | the model matrix: projection, toggles and preferred choices, translation, the gateway, projection again |
| `AutoRefresh.dfy`, `AutoRefreshObject.dfy` | refresh pacing: passes, workers, pauses, resets |
| `ControlTokens.dfy` | publication of control tokens and 401/410 notifications over restarts and sessions |
| `Calendar.dfy`, `WallClock.dfy` | calendar arithmetic of ECMA-262, section 21.4.1, and the datetime-local conversions |
| `ExecQuoting.dfy` | the autostart entry, read back by the Desktop Entry Specification 1.5 |
| `Lists.dfy` | options, duplicate-free lists and list surgery |

## Where the code and its promise differ

- A response can take the client's control tokens back to an earlier process when two
  restarts lie between its origin and its arrival (`ControlTokens.TwoRestartsCanGoBack`);
  the exact conditions are `ControlTokens.ArrivalGoesBackExactlyWhenBetween` for one arrival
  and `ControlTokens.RunsGoBackExactlyWhenBetween` for a run.
- The datetime-local round trip holds from the year 1000 on; years 0 to 99 are rejected
  because Date.UTC maps them to 1900 to 1999, which also sends `nextCalendarMonthStart`
  1900 years ahead there (`WallClock.AcceptedPrintsBack`, `WallClock.NextMonthStartIsNext`;
  inputs: `WallClock.EarlyYearPrintsDifferently`, `WallClock.NextMonthOfTheYear50`).
- The guard on executable paths refuses NUL, LF and CR only. The Desktop Entry Specification
  1.5 also excludes control characters and everything outside ASCII from values of type string
  (section 4) and the equal sign from the program's path (section 7), so some entries are
  written that a reader of the standard must not launch (`ExecQuoting.WrittenInVainExactly`;
  inputs: `ExecQuoting.EqualSignIsWrittenInVain`, `ExecQuoting.TabIsWrittenInVain`,
  `ExecQuoting.LetterOutsideAsciiIsWrittenInVain`).

## Assumptions

- Credential handoff: one apply at a time, each file operation atomic, the exclusive copy
  included; a new claim name sorts after the existing ones; the Host only replaces the live
  file. The ordering theorems are for a directory in which nobody else deletes files (`solo`);
  the others hold without that. A refused `credentials.set` may or may not have changed the
  store.
- Scheduler: `changed` does not throw, and the part of `run` before its first suspension does
  not call back into the scheduler object (the machine's runs allow it). What `current` and
  `run` do when a job starts is given for each job in advance, whatever it is.
- Auto-refresh: the clock never goes back; it, `allowed` and what the targets say are fixed
  during one synchronous turn of a worker.
- Control tokens: each server process has its own id, and within a process the revision
  never decreases.
- Text: `toLocaleLowerCase` and `to_ascii_lowercase` are arbitrary functions; the gateway
  keeps catalog names trimmed and distinct when lower-cased, and every platform parent as an
  observer (crates/ocg-domain/src/destination.rs:844-846); provider ids do not contain the
  NUL separator. An ISO string stands for the time value it denotes. Times and offsets are
  integers.

## Model

| member | source | states |
|---|---|---|
| `RefreshScheduler.EveryRunIsSafe` | src/domain/account-refresh-scheduler.ts:11-108 | Over every interleaving of enqueue, promotion, start, completion and reset: at most `concurrency` jobs are active; an active exclusive job is the only one; every promise is pending, active or settled and only one of these; the map holds exactly the pending jobs and the active ones no reset orphaned; the observer was last told "queued" of the pending ids, "running" of the mapped active ones, null of the rest. |
| `RefreshScheduler.SettledForGood` | src/domain/account-refresh-scheduler.ts:33-51 | A settled promise is never settled again: its outcome survives every later run. |
| `RefreshScheduler.OrphansNeverReturn` | src/domain/account-refresh-scheduler.ts:34-49 | A job that was running at a reset is never current again, however long the run, and its completion changes neither the map nor what was last announced, even when another job has taken its id. |
| `RefreshScheduler.StartIsSafe` | src/domain/account-refresh-scheduler.ts:57-67 | The job drain picks moves from the queue into the pool without breaking any of the invariants. |
| `RefreshScheduler.EnqueueIsSafe` | src/domain/account-refresh-scheduler.ts:75-100 | Enqueueing, joining and promoting keep every invariant. |
| `RefreshScheduler.ResetIsSafe` | src/domain/account-refresh-scheduler.ts:101-107 | A reset keeps every invariant while leaving running jobs their slots. |
| `RefreshScheduler.OvertakenOncePerPlace` | src/domain/account-refresh-scheduler.ts:57-68 | While a manual job waits, every job start moves it forward exactly one place, so a job at position p is overtaken by at most p starts; runs with a reset excepted. |
| `RefreshScheduler.CompletionsAreBounded` | src/domain/account-refresh-scheduler.ts:57-68 | A waiting manual job is started before position * concurrency + active further completions. |
| `RefreshRequests.CreatedAsAsked` | src/domain/account-refresh-scheduler.ts:87-96 | Over any run, the job a call creates has that call's id and exclusivity for ever. |
| `RefreshRequests.ExclusiveRunsAlone` | src/domain/account-refresh-scheduler.ts:58-64 | Over any run, while a job whose creating call asked for exclusivity is active, it is the only active job. |
| `RefreshRequests.ManualIsAsked` | src/domain/account-refresh-scheduler.ts:81-94 | Over any run, a job is manual exactly when some call that was answered with its promise asked for a manual one. |
| `RefreshRequests.StartsTheOldest` | src/domain/account-refresh-scheduler.ts:59-67 | Every start takes the oldest manual job, or the oldest job if the one taken is not manual, out of the queue and leaves the others in it. |
| `RefreshRequests.SettledAsConcluded` | src/domain/account-refresh-scheduler.ts:33-43 | A completion settles the job's promise with its outcome, a start that ends at once with its own; a call and a start that suspends settle nothing. |
| `RefreshRequests.ResetResolvesTheQueue` | src/domain/account-refresh-scheduler.ts:101-107 | A reset resolves the promises of the queued jobs and no others. |
| `SchedulerObject.CreateScheduler` | src/domain/account-refresh-scheduler.ts:11-17 | A scheduler is made exactly for an integer concurrency of at least 1. |
| `SchedulerObject.Scheduler.ValidIsSafe` | src/domain/account-refresh-scheduler.ts:28-31 | Every state a caller of the object can see satisfies the invariants of the machine. |
| `SchedulerObject.Scheduler.Enqueue` | src/domain/account-refresh-scheduler.ts:75-100 | Returns the promise of the job already there, or of a new one with the id and exclusivity asked for; that job becomes manual unless the caller is background; no other job is created or promoted and no settlement changed; performs one enqueue followed only by starts; and leaves nothing that could be started, so pending work implies active work. |
| `SchedulerObject.Scheduler.Join` | src/domain/account-refresh-scheduler.ts:81-86 | The existing job keeps its promise and place and becomes manual unless the caller is background. |
| `SchedulerObject.Scheduler.Drain` | src/domain/account-refresh-scheduler.ts:53-72 | No-op when reentered; otherwise performs only starts, keeps every settlement and stops only when nothing can be started, even when jobs finish inside the loop. |
| `SchedulerObject.Scheduler.RestsOnlyWhenItMust` | src/domain/account-refresh-scheduler.ts:57-64 | Between calls, if something waits with a slot free and no active job exclusive, then something is active and the job whose turn it is, the first manual one or else the first, is exclusive. |
| `SchedulerObject.Scheduler.Execute` | src/domain/account-refresh-scheduler.ts:33-51 | Performs exactly one start event: it suspends when `run` does, is resolved at once when the job is not current, and rejected at once when a callback throws. |
| `SchedulerObject.Scheduler.Finish` | src/domain/account-refresh-scheduler.ts:36-50 | A completion settles the promise with its outcome, frees the slot, keeps every other settlement and starts whatever has become possible. |
| `SchedulerObject.Scheduler.Reset` | src/domain/account-refresh-scheduler.ts:101-107 | A reset empties the map, the queue and what observers were told, resolves every queued promise, keeps the active jobs and all settlements, and leaves nothing startable behind. |
| `CredentialHandoff.HostWriteIsConsistent` | integrations/dsh-plugin/index.js:82-90 | A Host write at any moment keeps the handoff ordered, unregressed and lossless. |
| `CredentialHandoff.ClaimIsConsistent` | integrations/dsh-plugin/index.js:138-142 | Claiming the live file under a later name keeps the invariants and makes that claim the newest, not behind the store. |
| `CredentialHandoff.RestoreIsConsistent` | integrations/dsh-plugin/index.js:149-158 | Copying the newest claim back to a missing live file keeps the invariants. |
| `CredentialHandoff.PutIsConsistent` | integrations/dsh-plugin/index.js:186-187 | Storing the newest claim never takes the store back to an earlier Key. |
| `CredentialHandoff.UnlinkIsConsistent` | integrations/dsh-plugin/index.js:130-136 | A claim may be removed without losing the newest Key or letting an older one come next, when live or a newer claim stands behind it or it is the stored last one. |
| `CredentialHandoff.PendingIsNewest` | integrations/dsh-plugin/index.js:82-90 | What an apply will claim (live, or else the newest leftover) is always the newest Key the Host has written. |
| `CredentialHandoff.NewestFirstWouldRegress` | integrations/dsh-plugin/index.js:130-136 | Sweeping the newer of two claims first would leave an older Key next in line behind the store: the oldest-first order is needed. |
| `HandoffRuntime.NewestClaim` | integrations/dsh-plugin/index.js:123-128 | Undefined exactly for no paths; otherwise the last path in name order. |
| `HandoffRuntime.OldestMayGo` | integrations/dsh-plugin/index.js:130-136 | The oldest claim may always be removed first, and the rest can then still be swept. |
| `HandoffRuntime.Runtime.Sweep` | integrations/dsh-plugin/index.js:130-136 | No claim file is left unless one of its own operations drew a fault, which is then the answer; every intermediate disk state satisfies the invariants. |
| `HandoffRuntime.Runtime.ClaimHandoff` | integrations/dsh-plugin/index.js:138-147 | Answers with exactly the fault its operations drew, if any; otherwise the claim taken is the newest one and holds a Key at least as new as any written before the call, and the live file is gone or newer; no claim is taken only when there was neither live file nor leftover. |
| `HandoffRuntime.Runtime.RestoreClaimed` | integrations/dsh-plugin/index.js:149-165 | After it succeeds there is a live file, the restored one or a newer one of the Host, and the claim is gone; otherwise it answers with the one fault drawn. |
| `HandoffRuntime.Runtime.Consume` | integrations/dsh-plugin/index.js:167-198 | Every ending is owed to exactly the faults its own operations drew. Without a fault a pending Key at least as new as any written before is the only one stored, or given back if it is empty, and no claim file is left; without a fault and without a Key nothing happens. A refused or empty Key is back in the live file or superseded, and a stored one is not left there. |
| `HandoffRuntime.Runtime.Session` | integrations/dsh-plugin/index.js:82-198 | Over any number of applies, with the Host writing and crashes or failures anywhere, at every point the store never went back to an earlier Key and the newest Key is live, claimed or stored. |
| `PolicyText.ParseDelimitedList` | src/domain/temporary-policy.ts:158-168 | Splitting, trimming, dropping empty items and repetitions, by the set-and-push loop. |
| `PolicyText.ListRoundTrip` | src/domain/temporary-policy.ts:158-168 | Joining trimmed, distinct, separator-free items and splitting them again gives the same list. |
| `PolicyText.DecimalRoundTrip` | src/domain/temporary-policy.ts:175-183 | A printed number reads back as itself. |
| `PolicyDraft.ParseStatusCodes` | src/domain/temporary-policy.ts:185-199 | Every value must be a number from 400 to 599; repetitions are dropped, order kept. |
| `PolicyDraft.ParseCustomRuleDraft` | src/domain/temporary-policy.ts:216-304 | Accepts exactly the drafts no issue is raised for, with the rule they denote; otherwise reports each raised issue once and no other. |
| `PolicyDraft.AcceptedIsCanonical` | src/domain/temporary-policy.ts:216-304 | An accepted rule is in the form the printer can express. |
| `PolicyDraft.RoundTripsExactlyWhenCanonical` | src/domain/temporary-policy.ts:485-497 | Any rule, however it was made, survives printing and parsing exactly when it is in canonical form. |
| `PolicyDraft.AcceptedRoundTrips` | src/domain/temporary-policy.ts:485-497 | What the parser accepts, printed and parsed again with the same destination and builtins, is exactly the same rule. |
| `PolicyReading.TrimExactly` | src/domain/temporary-policy.ts:158-178 | Trimming takes off exactly the white space at both ends, and all of it from white space alone. |
| `PolicyReading.CollectExactly` | src/domain/temporary-policy.ts:158-168 | A parsed list has the trimmed parts, each once, in order of first occurrence, without empty ones. |
| `PolicyReading.SecondsExactly` | src/domain/temporary-policy.ts:175-183 | A number with any zeros before it and white space around it is read as itself if it is from 1 to 86400, and otherwise refused. |
| `PolicyReading.CodesExactly` | src/domain/temporary-policy.ts:185-199 | Values that are all numbers from 400 to 599 give each number once, in order of first occurrence. |
| `PolicyReading.CodesNeedEvery` | src/domain/temporary-policy.ts:188-193 | The codes are accepted exactly when every value is such a number. |
| `PolicyReading.EncodedDecodes` | src/domain/temporary-policy.ts:154-156 | The bytes counted are those of the encoding of RFC 3629: the first tells how many there are, and together they give the code point back. |
| `PolicyReading.Utf8LengthIsBytes` | src/domain/temporary-policy.ts:154-156 | The length compared with the limit is the number of bytes of the encoding. |
| `PolicyReading.RaisedExactly` | src/domain/temporary-policy.ts:201-287 | Each of the fourteen issues is raised exactly where the form's rules, one by one, call for it. |
| `PolicyReading.RuleReads` | src/domain/temporary-policy.ts:292-303 | An accepted rule has each field from the draft's own. |
| `PolicyReading.RuleReadsCodes` | src/domain/temporary-policy.ts:236-245 | Its status codes are the numbers of the listed values, each once, in order of first occurrence, and there are none exactly when the field was left empty. |
| `PolicyOverlay.OverlayRules` | src/domain/temporary-policy.ts:310-315 | The map-filling loops compute the overlay: base entries keep their place, later rules of an id win. |
| `PolicyOverlay.EffectiveRulesResolve` | src/domain/temporary-policy.ts:331-344 | Each id appears once among the effective rules and is resolved to the destination's rule, else the global one, else the builtin. |
| `PolicyOverlay.UnmentionedInheritsGlobal` | src/domain/temporary-policy.ts:331-344 | A destination no rule mentions has exactly the global effective rules, in the same order. |
| `PolicyOverlay.FiniteCheckBoundsAll` | src/domain/temporary-policy.ts:371-378 | Some destination at all has too many enabled rules if and only if one of the finitely many checked ones has. |
| `PolicyOverlay.ValidateConfiguredRules` | src/domain/temporary-policy.ts:354-379 | Each issue is reported exactly when it is true; in particular no report of too many enabled rules bounds every destination, mentioned or not. |
| `PolicyOverlay.OverlayOrder` | src/domain/temporary-policy.ts:310-315 | Ids stand in order of first mention, those of the base first. |
| `PolicyOverlay.ConfiguredRuleInForce` | src/domain/temporary-policy.ts:331-344 | In force for an id is the last rule the list has for the destination and the id, or without any the last global one. |
| `PolicyOverlay.BuiltinInForce` | src/domain/temporary-policy.ts:317-344 | Without a configured rule the last builtin of the id is in force, enabled, global and with its own backoff. |
| `PolicyOverlay.UnknownIdIsNotInForce` | src/domain/temporary-policy.ts:336-340 | An id no rule and no builtin has is not in force, except that an empty catalog stands for the one default builtin. |
| `PolicyOverlay.EnabledCount` | src/domain/temporary-policy.ts:346-352 | The number of places of the list that hold an enabled rule. |
| `PolicyOverlay.KeysTellApart` | src/domain/temporary-policy.ts:306-308 | For destinations that are not empty and have no NUL, two rules have the same key exactly when they have the same destination and id. |
| `PolicyOverlay.UpsertRule` | src/domain/temporary-policy.ts:381-390 | Each rule with the key becomes the new one in its place, every other rule stays as it is, and the new one comes last exactly when no rule had the key. |
| `PolicyOverlay.UpsertReachesNothingElse` | src/domain/temporary-policy.ts:381-390 | At every destination and id where neither the saved rule nor one it replaces could count, what is in force does not change. |
| `PolicyOverlay.UpsertTakesEffect` | src/domain/temporary-policy.ts:381-390 | In any list the saved rule is the one in force for its destination and id; a list without repeated keys stays one. |
| `RoutingCards.AddEmptyCardAfter` | src/domain/routing-cards.ts:70-91 | The result has one card more: the empty card stands right after the first card with the anchor id, or at the end, and without it the cards are those given. |
| `RoutingCards.AddKeepsLayout` | src/domain/routing-cards.ts:70-91 | Adding an empty card with a new id keeps the layout and the destinations and gives the destination a card. |
| `RoutingCards.AddKeepsPriority` | src/domain/routing-cards.ts:70-91 | Adding an empty card leaves the routing priority untouched. |
| `RoutingCards.RemoveKeepsLayout` | src/domain/routing-cards.ts:98-108 | Removing a card keeps the layout, the priority and at least one card of every destination. |
| `RoutingCards.RemovedIsGone` | src/domain/routing-cards.ts:98-108 | What is removed is the one card of that id, which was empty, and every other card stays in order. |
| `RoutingCards.RemovalIsRefusedExactly` | src/domain/routing-cards.ts:98-108 | An empty card is refused removal if and only if its destination would be left without a card. |
| `RoutingCards.TransferIsAcceptedExactly` | src/domain/routing-cards.ts:121-131 | In a layout a transfer is accepted if and only if the target card is of the credential's own destination. |
| `RoutingCards.CardLands` | src/domain/routing-cards.ts:154-167 | The moved card stands, unchanged, exactly one place up or down, or at the end it was sent to. |
| `RoutingCards.TransferKeepsLayout` | src/domain/routing-cards.ts:115-146 | Moving a credential between cards keeps the layout and the relative order of all other credentials. |
| `RoutingCards.TransferLands` | src/domain/routing-cards.ts:137-145 | The moved credential stands at the clamped index among the target's other rows, which keep their order. |
| `RoutingCards.TransferTouchesNothingElse` | src/domain/routing-cards.ts:133-145 | Every card keeps its place, id, destination and other rows, and the credential is on the target alone. |
| `RoutingCards.CardMoveIsAcceptedExactly` | src/domain/routing-cards.ts:159-165 | A card moves exactly when it exists and does not stand at the boundary in that direction. |
| `RoutingCards.RowMoveIsAcceptedExactly` | src/domain/routing-cards.ts:176-180 | A row moves exactly when the card exists and holds it and the place asked for is on the card. |
| `RoutingCards.MoveCardKeepsLayout` | src/domain/routing-cards.ts:154-167 | Moving a card keeps the layout and the order of all other cards. |
| `RoutingCards.UpThenDown` | src/domain/routing-cards.ts:154-167 | Moving a card up and then down restores the layout. |
| `RoutingCards.CardMoved` | src/domain/account-lifecycle.ts:41-53 | Moving any card to any place conserves the credentials, their cards and the order of the other cards. |
| `RoutingCards.MoveRowKeepsLayout` | src/domain/routing-cards.ts:170-185 | Reordering a row keeps the layout and the relative order of all other credentials. |
| `RoutingCards.MoveRowUndone` | src/domain/routing-cards.ts:170-185 | Moving a row by delta and then by -delta restores the layout. |
| `RoutingCards.RunsKeepLayout` | src/domain/routing-cards.ts:69-185 | Any run of accepted edits keeps card ids unique, each credential on exactly one card and of its own destination, and at least one card of every destination that had one. |
| `GroupMove.MoveWithinGroup` | src/domain/destination-groups.ts:151-173 | For any lists: null exactly when the move is out of range or the group's places are not as many as its items; otherwise every other row stays, the group's places hold the moved group list in order, and the rows are permuted exactly when those places held the group's items. Without duplicates: null exactly when the move is out of range or a member is missing, and a permutation otherwise. |
| `GroupMove.MovedGroupExactly` | src/domain/destination-groups.ts:157-162 | The group list is moved exactly when the item is in it and its place plus delta is too; there it then stands, and the others keep their order. |
| `GroupMove.MovedGroupUndone` | src/domain/destination-groups.ts:157-162 | Moving by delta and then by -delta is no move. |
| `AliasIndex.TagDecides` | src/domain/provider-aliases.ts:238-251 | For provider ids without the separator, decoding a bucket tag decides the overlap as comparing the rows does. |
| `AliasIndex.BucketOverlapsRow` | src/domain/provider-aliases.ts:246-253 | True exactly when some tag of the bucket names another provider and another folded name. |
| `AliasIndex.AliasOverlapFlags` | src/domain/provider-aliases.ts:262-277 | A key is flagged by the one indexed pass exactly when the quadratic scan flags a row of that key. |
| `AliasRanks.ServesExactly` | src/domain/provider-aliases.ts:324-387 | A rank serves a routable row exactly when an enabled account of the row has an enabled inference credential with an enabled binding of that rank whose scope is all models or lists the public name, compared folded. |
| `AliasRanks.AliasRoutingRankIndex` | src/domain/provider-aliases.ts:324-352 | The index holds exactly the enabled accounts, their providers, and the enabled bindings on their enabled inference credentials. |
| `AliasRanks.RanksForAccounts` | src/domain/provider-aliases.ts:354-367 | The strictly ascending list of exactly the ranks some listed account's binding allows for the name. |
| `AliasRanks.IndexIsFaithful` | src/domain/provider-aliases.ts:370-379 | A look-up through the index finds a rank exactly when the direct definition over accounts and identities gives it. |
| `AliasRanks.AliasRowRoutingRanks` | src/domain/provider-aliases.ts:381-387 | The strictly ascending list of exactly the ranks that serve the row; empty for rows that are not routable. |
| `ModelMatrix.DestinationConfiguredProtocols` | src/domain/destination-catalog.ts:48-60 | The configured protocols, each once, in order of first mention. |
| `ModelMatrix.ProjectModel` | src/domain/destination-catalog.ts:91-137 | The loop computes the projection that `MatrixRows.ProjectionReads` describes field by field. |
| `MatrixRows.ProjectionReads` | src/domain/destination-catalog.ts:91-137 | The row field by field: a slot for each configured protocol, or for all of a Custom or Dynamic destination; which slots are available and enabled; when the model is routable; and the preferred protocol, with its two fallbacks. |
| `ModelMatrix.BuildModelToggleOverrides` | src/domain/provider-contracts.ts:198-236 | The nested loops compute the batch that `MatrixRows.BatchExactly` describes row by row, in the order of `MatrixRows.BatchInOrder` and `MatrixRows.RowsInOrder`. |
| `MatrixRows.BatchExactly` | src/domain/provider-contracts.ts:188-236 | For either kind of scope, which rows a toggle writes: on, the available slots forced on; off, all slots of a provider, or the available ones of a custom endpoint, forced off; stamped is, off and of a provider only, the preferred slot or else the first available one. |
| `MatrixRows.BatchInOrder` | src/domain/provider-contracts.ts:198-236 | The rows come id by id. |
| `MatrixRows.RowsInOrder` | src/domain/provider-contracts.ts:205-232 | Within an id they come in the dashboard's order of protocols. |
| `ModelMatrix.CatalogUpdatesFromOverrides` | src/domain/destination-catalog.ts:197-234 | The loops compute, for the overridden names in order of first mention, the updates that `MatrixRows.UpdateOfKnown`, `NoUpdateOfUnknown` and `UpdateExactly` describe. |
| `MatrixRows.UpdateOfKnown` | src/domain/destination-catalog.ts:204-209 | A name the catalog has gives one update, of the first model of that name from the rows of that name. |
| `MatrixRows.NoUpdateOfUnknown` | src/domain/destination-catalog.ts:204-209 | A name the catalog does not have gives none. |
| `MatrixRows.LastRowDecides` | src/domain/destination-catalog.ts:210-222 | The last row that forces an available protocol decides whether it is enabled. |
| `MatrixRows.NoRowDecides` | src/domain/destination-catalog.ts:210-222 | A protocol no row forces stays as it was. |
| `MatrixRows.LastPreferenceStays` | src/domain/destination-catalog.ts:210-222 | The last row that prefers an available protocol is the choice, and without one the choice stays. |
| `MatrixRows.UpdateExactly` | src/domain/destination-catalog.ts:223-231 | An update lists the enabled protocols in configured order, is on exactly when there is one, and keeps the choice unless it is on without it. |
| `MatrixToggle.ToggledReadsBack` | src/domain/provider-contracts.ts:160-165 | A toggled model with some protocol reads as on exactly when it was switched on. |
| `MatrixToggle.BatchTranslates` | src/domain/destination-catalog.ts:197-234 | The translated batch is, name by name, the update that switches every available protocol as requested. |
| `MatrixToggle.GatewayAppliesToggles` | crates/ocg-core/src/dashboard_v4/destination_catalog.rs:346-388 | Once past the checks of the destination and the batch size, the gateway applies the updates of a toggle one after the other without mixing models up, or refuses them all if it sees other protocols than the client for one of them. |
| `MatrixToggle.ToggleUpdateApplies` | crates/ocg-domain/src/destination.rs:996-1054 | Past the checks of the destination and the batch size, a model's update is accepted exactly when the gateway sees the protocols the client sees. |
| `MatrixToggle.ToggleIsFaithful` | src/domain/provider-contracts.ts:188-236 | Project, toggle, translate, apply, project: accepted exactly when the destination is editable (HTTP and no observer) and the batch within the limit, and then every listed model with some protocol reads as requested and no other model changes. |
| `MatrixToggle.OffThenOn` | src/domain/provider-contracts.ts:188-236 | Over two gateway runs with the re-projected catalog in between: what is accepted off is accepted on again, every listed model with some protocol ends with all of them enabled and shows the preferred protocol it showed at first, also while off, and no other model changes. |
| `MatrixToggle.EditableRoutesAgree` | crates/ocg-domain/src/destination.rs:844-846 | In an editable destination client and gateway see the same protocols of every model: the one case where they would differ is a platform parent, which is an observer. |
| `MatrixToggle.PlatformParentsAreRefused` | crates/ocg-core/src/dashboard_v4/destination_catalog.rs:340-342 | No catalog update of a platform parent is accepted, whatever its routes and base URL. |
| `MatrixToggle.UpdatesAreSound` | src/domain/destination-catalog.ts:223-231 | Whatever the overrides, an update lists distinct available protocols, is enabled exactly when it lists some, and then prefers one of them. |
| `MatrixRows.GatewayAcceptsExactly` | crates/ocg-core/src/dashboard_v4/destination_catalog.rs:346-388 | The gateway takes an update of a model exactly when it lists distinct usable protocols, names a usable choice if any, and, if it switches on, lists some and the choice among them; the model then has those protocols and the choice named, kept or defaulted. |
| `MatrixRows.AnyRowsApply` | crates/ocg-core/src/dashboard_v4/destination_catalog.rs:346-388 | Where client and gateway see the same protocols, the update any overrides at all amount to is taken exactly when the model has some protocol or no stored choice. |
| `MatrixRows.AcceptedNamesAreKnown` | crates/ocg-core/src/dashboard_v4/destination_catalog.rs:346-358 | A batch is taken only if it names known models, each once; the catalog then keeps its models by number, place and name. |
| `PreferredChoice.ChoiceExactly` | src/domain/provider-contracts.ts:253-278 | For either kind of scope, which rows a choice writes: none unless the protocol is available; if anything is enabled the choice alone, forced on; otherwise every writable slot forced off with the choice marked. |
| `PreferredChoice.ChoiceTranslates` | src/domain/provider-contracts.ts:253-278 | A choice of an available protocol sends one update, the choice's meaning; any other choice sends none. |
| `PreferredChoice.ChosenIsShown` | src/domain/provider-contracts.ts:248-278 | The row shows the chosen protocol; whether it is on and which other protocols are enabled does not change. |
| `PreferredChoice.ChoiceIsFaithful` | src/domain/provider-contracts.ts:248-278 | The gateway accepts a choice exactly when the destination is editable; then exactly that model becomes as chosen. |
| `AutoRefresh.EveryRunIsPaced` | src/domain/accounts-auto-refresh.ts:45-114 | Over every interleaving of passes, workers, completions, pauses and resets: never more than `concurrency` refreshes of a pass in flight, no id started twice in a pass, pacing of starts, and attempts remembering the last start of every id not forgotten. |
| `AutoRefresh.StartsAreSpaced` | src/domain/accounts-auto-refresh.ts:77-97 | Two consecutive starts of an id under one binding, or a noted completion and the next start, are at least five minutes apart across passes and pauses, unless a reset or an unlisting forgot the id in between. |
| `AutoRefresh.DueExactly` | src/domain/accounts-auto-refresh.ts:79-85 | An id is started exactly when its target exists, is not busy, is past its own limit, and was observed and last attempted under this binding at least five minutes ago. |
| `AutoRefresh.EveryStartWasDue` | src/domain/accounts-auto-refresh.ts:76-88 | Over any run, every refresh started was started on a look at a target that was idle, past its limit and observed at least five minutes before. |
| `AutoRefresh.RunningIsTheCurrentPass` | src/domain/accounts-auto-refresh.ts:63-107 | run is locked exactly while a pass that no pause or reset outdated is still going: never for ever, never by an old pass. |
| `AutoRefresh.OutdatedPassesAreInert` | src/domain/accounts-auto-refresh.ts:68-106 | Workers and completions of a pass from before a pause or reset start nothing, record nothing and do not unlock run. |
| `AutoRefresh.NoIdIsMissed` | src/domain/accounts-auto-refresh.ts:75-100 | A pass that is neither outdated nor denied ends only when every listed id was taken by a worker. |
| `AutoRefreshObject.CreateAutoRefresh` | src/domain/accounts-auto-refresh.ts:55-58 | An object is made exactly for an integer concurrency of at least 1. |
| `AutoRefreshObject.Refresher.ValidIsPaced` | src/domain/accounts-auto-refresh.ts:59-61 | Every state of the object satisfies the machine's invariants. |
| `AutoRefreshObject.Refresher.Begin` | src/domain/accounts-auto-refresh.ts:63-100 | Nothing while a pass runs or refreshing is not allowed; otherwise a new pass over the distinct listed ids, with as many workers as the concurrency and the ids allow, each of which started the first due id no worker before it had passed, or left because there was none. |
| `AutoRefreshObject.Refresher.Turn` | src/domain/accounts-auto-refresh.ts:76-90 | The worker starts the first due id at or after the shared cursor, or leaves without starting any when there is none. |
| `AutoRefreshObject.Refresher.ForgetUnlisted` | src/domain/accounts-auto-refresh.ts:71-73 | Exactly the attempts of ids no longer listed are dropped. |
| `AutoRefreshObject.Refresher.Settle` | src/domain/accounts-auto-refresh.ts:91-98 | The end of a refresh is noted unless the pass is outdated, and the worker goes on to the first due id the pass has not passed yet. |
| `AutoRefreshObject.Refresher.End` | src/domain/accounts-auto-refresh.ts:100-106 | run unlocks only itself. |
| `AutoRefreshObject.Refresher.Pause` | src/domain/accounts-auto-refresh.ts:111 | Unlocks run and outdates every pass, keeping the attempts. |
| `AutoRefreshObject.Refresher.Reset` | src/domain/accounts-auto-refresh.ts:112 | Unlocks run, outdates every pass and forgets every attempt. |
| `ControlTokens.EveryRunIsSound` | src/api/dashboard-v3.ts:181-208 | In any order of arrival the client only ever holds tokens a process really had. |
| `ControlTokens.ArrivalGoesBackExactlyWhenBetween` | src/api/dashboard-v3.ts:192-200 | An arrival takes the client back, in process or revision, if and only if it was served strictly between the process its request was bound to and the one held now. |
| `ControlTokens.RunsGoBackExactlyWhenBetween` | src/api/dashboard-v3.ts:181-208 | Over any run, across sessions, the tokens held never go back if and only if no response arrives that was served strictly between the process its request was bound to and the one held. |
| `ControlTokens.NeverBackMeansNotBehind` | src/api/dashboard-v3.ts:181-208 | Then the tokens held are not behind those of any earlier moment of the run. |
| `ControlTokens.PromptRunsNeverGoBack` | src/api/dashboard-v3.ts:181-208 | If every bound response arrives at most one restart after its origin, the tokens held never go back, for any order of arrival, with unbound responses arbitrarily late, and across session resets. |
| `ControlTokens.TwoRestartsCanGoBack` | src/api/dashboard-v3.ts:181-200 | With two restarts there is a run in which the tokens do go back. |
| `ControlTokens.CatchesUp` | src/api/dashboard-v3.ts:181-200 | A response brings the client to the process that gave it, whichever that is, exactly when the client holds nothing or that process, or the request was bound to an earlier one. |
| `ControlTokens.PublishedExactly` | src/api/dashboard-v3.ts:192-208 | What is held after an answer of the session: the higher revision of the process held; another process exactly as answered if the request was bound to a third one or nothing is held; otherwise what was held. |
| `ControlTokens.TakenForGood` | src/api/dashboard-v3.ts:202-208 | Tokens once taken stay: without an arrival from in between, what is held at any later moment is not behind them. |
| `ControlTokens.ReplacedSessionsNeverPublish` | src/api/dashboard-v3.ts:202-208 | A response to a request from before a sink replacement changes nothing, whenever it arrives. |
| `ControlTokens.SignalsAreNotFromThePast` | src/api/dashboard-v3.ts:210-225 | A 401 or 410 notification never comes from a process older than the one held or from a replaced session; the process held can always notify by naming itself. |
| `ControlTokens.EmitsExactly` | src/api/dashboard-v3.ts:216-225 | A 401 or 410 notifies exactly when it is of this session and the process held is the one at dispatch, also if the answer names none, or the one the answer names; while none is held, exactly when none was held at dispatch. |
| `ControlTokens.ControlPlane.ObservedProcess` | src/api/dashboard-v3.ts:162-165 | The process is known only through a registered getter. |
| `ControlTokens.ControlPlane.PublishTokens` | src/api/dashboard-v3.ts:202-208 | The module state after a response is that of the specification function the theorems are about; the backend epoch moves exactly when the process held changes. |
| `ControlTokens.ControlPlane.Sync` | src/stores/controlPlane.ts:62-79 | For the process held the revision becomes the higher of the two; otherwise process and revision are exactly the incoming ones. |
| `ControlTokens.ControlPlane.Reset` | src/stores/controlPlane.ts:218-226 | A reset replaces the sink and forgets the tokens. |
| `Calendar.DayFromYearIsTheFormula` | src/domain/billing.ts:148-151 | Counting years of 365 and 366 days from 1970 gives the closed form of ECMA-262, section 21.4.1.3. |
| `Calendar.YearFromDay` | src/domain/billing.ts:177-199 | The last year that starts on or before a day, as section 21.4.1.3 of ECMA-262 defines it. |
| `Calendar.MakingWhatWasRead` | src/domain/billing.ts:170-175 | Reading a time value is a reading on the calendar, and making it again drops only the seconds. |
| `Calendar.ReadingWhatWasMade` | src/domain/billing.ts:187-197 | Making a time value from a reading on the calendar and reading it again gives the reading. |
| `WallClock.AcceptsTheCalendar` | src/domain/billing.ts:177-199 | A datetime-local value is rejected exactly when it has not the pattern, is not on the calendar or is of a year before 100; otherwise it throws exactly when its instant is out of the range of dates, and gives that instant exactly when it is in range. |
| `WallClock.AcceptedPrintsBack` | src/domain/billing.ts:170-199 | The instant of an accepted value prints as the value typed, trimmed, if and only if its year is 1000 or later. |
| `WallClock.EarlyYearPrintsDifferently` | src/domain/billing.ts:170-199 | The value 0999-12-31T23:59 is accepted and its instant prints differently. |
| `WallClock.PrintedParsesBack` | src/domain/billing.ts:170-199 | For any instant and offset, parsing the printed instant gives it back to the minute if and only if its wall clock year has four digits, and is rejected otherwise. |
| `WallClock.NextMonthStartIsMidnight` | src/domain/billing.ts:148-151 | When it is a date, the result is local midnight on the first of the following month; 1900 years off in the years 0 to 99. |
| `WallClock.NextMonthStartIsNext` | src/domain/billing.ts:148-151 | When it is a date, it is strictly after now, and at most 31 days later if and only if the wall clock is not in the years 0 to 99. |
| `WallClock.NextMonthExistsExactly` | src/domain/billing.ts:148-151 | The result is a date, not an invalid one, if and only if the wall clock shows a date and its month, taken 1900 years later in the years 0 to 99, is before the month of the last local time in range. |
| `WallClock.JanuaryOfEarlyYears` | src/domain/billing.ts:148-151 | For every year from 0 to 99 there is an instant in it whose next month is 1900 years later. |
| `WallClock.NextMonthOfTheYear50` | src/domain/billing.ts:148-151 | The instant that starts January of the year 50 has February of 1950 as its next month. |
| `ExecQuoting.QuoteDesktopExecArg` | src-tauri/src/autostart.rs:188-201 | The loop and the two replacements compute the quoted argument. |
| `ExecQuoting.ExecRoundTrip` | src-tauri/src/autostart.rs:180-201 | Undoing string escapes, argument quoting and %%, as sections 4 and 7 of the Desktop Entry Specification 1.5 define them, recovers any path as exactly one argument, followed by --startup. |
| `ExecQuoting.EntryLaunchesThePath` | src-tauri/src/autostart.rs:109-115 | For a reader that admits only what sections 4 and 7 of the standard admit, the entry file launches exactly that command if and only if the path is not empty and consists of printable ASCII characters other than the equal sign; otherwise it launches nothing. |
| `ExecQuoting.WrittenEntriesLaunch` | src-tauri/src/autostart.rs:109-115 | An entry that is written launches its executable if and only if the path meets that condition, which the guard does not check. |
| `ExecQuoting.WrittenInVainExactly` | src-tauri/src/autostart.rs:160-168 | The paths for which an entry is written that launches nothing are exactly those without NUL, LF and CR that are empty, contain an equal sign or contain a character that is not printable ASCII. |
| `ExecQuoting.EqualSignIsWrittenInVain` | src-tauri/src/autostart.rs:160-168 | A path with an equal sign passes the guard, and its entry launches nothing. |
| `ExecQuoting.TabIsWrittenInVain` | src-tauri/src/autostart.rs:160-168 | A path with a tab passes the guard, and its entry launches nothing. |
| `ExecQuoting.LetterOutsideAsciiIsWrittenInVain` | src-tauri/src/autostart.rs:160-168 | A path with a letter outside ASCII passes the guard, and its entry launches nothing. |

## Left out

- Concurrency values NaN and Infinity: `Number.isInteger` refuses both, and the model's reals have neither.
- `afterRefresh` of the auto-refresh, called once after a pass, and exceptions of the callbacks that list targets.
- Restoring file modes after the exclusive copy, and the handler in `apply` that reports a failed handoff.
- The order of the issues reported by `validateConfiguredRules`: they are a set here.
- Lone surrogates in the policy form: characters are Unicode scalar values.
- Protocol names the dashboard does not know, and the removal list, the revision check and the refusal of an empty request of the gateway's catalog editor.
- `buildRoutingCardGroups`, `buildDestinationGroups`, `expandGroupOrder` and `buildCredentialOrder`: joins of the layout with account rows for display.
- Choosing the deserialised fields of a response body: a body has tokens or it has none.
- The serial lane of local mutations in the control-plane store: it would need the timing of promises.
- `formatOffsetDateTime`, credit and usage arithmetic of `billing.ts`: formatting without an inverse, and sums.
- HTTP transport, presenters, views and stores, operating-system calls, URL parsing and `Intl` formatting.
