# Cuttlegate: a verified model

Cuttlegate is a feature-flag server (Go) with client SDKs (JavaScript, Go). This project models its
evaluation engine, its administration services, its live-update pipeline and its bounded arithmetic in
Dafny 4.11, and proves what they guarantee over all inputs, all interleavings and all runs.

`dafny verify dfyconfig.toml` checks everything.

| file | what it models |
|---|---|
| `Domain.dfy` | flags, variants, rules, conditions, rollouts and their validation |
| `Rollout.dfy` | bucket hash, bucket resolution, percentage promise, redistribution after a variant is deleted |
| `Evaluator.dfy` | condition matching and `Evaluate` for every outcome of the unstable sort |
| `EvaluationService.dfy` | single and batch evaluation over a store snapshot, segment preloading |
| `RuleStore.dfy` | rules, flags and environments as one store: the steps admin calls allow, exact conditions for each to keep the store's promises, runs |
| `RuleAdmin.dfy` | the services: rule create, update, delete; variant add, rename, delete; flag update; with failing writes |
| `AdminEvaluation.dfy` | what administration guarantees to evaluation |
| `StateRows.dfy` | flag and environment state rows under failing creates, cascades and toggles |
| `Members.dfy` | projects and members, last-admin guard |
| `Broker.dfy` | event fan-out as a state machine over interleaved sends, receives and lock holders |
| `Sse.dfy` | the event-stream writer, the chunked JavaScript reader, the Go line reader |
| `CachedClient.dfy` | the JavaScript cached client: buffer, hydrate, drain, re-hydrate, close, subscribers |
| `Pipeline.dfy` | stored toggle to client cache, end to end |
| `RateLimit.dfy`, `AuditPaging.dfy`, `Backoff.dfy` | fixed-window limiter, cursor paging, wrapping backoff |
| `ToggleLog.dfy` | logs of toggles: last values, and replay of part of a log over an older value |
| `Sequences.dfy` | shared facts about flat maps and set sizes |

How the source's effects appear here:

- A Go string is a byte string; a `char` stands for one byte. Integers are unbounded except where width matters:
  the hash works on 32-bit words and the 64-bit shift truncates explicitly.
- Storage is maps and sequences with the tables' keys, cascades and upsert rules. A storage failure is a parameter: how
  many calls or writes of the operation succeed before one fails. Query results are visited in any order.
- Clock readings, fresh IDs, random numbers, network chunks and the arrival order of asynchronous answers are
  parameters, so the theorems hold for all of them. JSON text is produced and parsed by function parameters that
  must round-trip on the events actually sent; where text stops short, no proper beginning of an event may parse.
- A Go runtime panic is a result (`Err(Panic)`) or a predicate (`Broker.Panics`), never a precondition.

## Main results

1. `Pipeline.EndToEnd`: from the store to the cache, for any run of the store, any broker interleaving in which the
   subscriber does not lag its buffer, any keep-alives, any cut of the text into chunks and any arrival point of the
   hydration answer: every listed flag is cached, and is on as in the store exactly if it was toggled since the subscription or
   the answer saw the value it had when the subscription began. An answer computed after that always did.
2. `EvaluationService.BatchAgreesWithSingle`: the batched, segment-preloading evaluation of all flags answers what the
   single evaluation answers, both being the answer of a specification with no sorting, batching or preloading.
3. `RuleStore.DistinctExactly`, `ValidExactly` and `IntegrityExactly`: for every admin call, the exact condition under which it
   keeps priorities distinct, rules valid, and rules referring only to variants their flag has; row IDs, foreign keys, flag
   validity and unique keys per project need none (`NextKeepsSound`). Over runs that meet the conditions evaluation has one answer, cannot crash, and serves
   a variant the flag has, throughout every partial deletion of a variant (`AdminEvaluation.AdminRunsEvaluate`,
   `AdminRunsServeStored`, `AdminRunsViewStored`, `DeletionServesStoredVariant`).
4. `Broker.PanicsExactly` and `Broker.LosslessExactly`: which action panics, and when nothing is lost, both as equivalences
   over all reachable states; `PublishReachesOnce`: every publish, whatever overlaps it, is sent exactly once to each subscriber.
   `Sse.JsTellsPublished` and `GoDeliversPublished`: what the two clients read are the published changes, field by field, in order.
5. `Rollout.RolloutPercentage`, `Rollout.RedistributedInterval` and `RuleStore.DeletionShares`: who gets which variant, before a deletion
   and from the rules it stores.
6. `RateLimit.BoundExactly`: at most `2 * limit - 1` requests pass in every closed interval of a given length, in every run with
   clock readings at most so late, if and only if limit, window, lateness and length are `Bounded`; `BoundIsTight` and
   `PlainLimitExactly`: no smaller bound, and the plain limit only for a limit of one.
7. `AuditPaging.CompleteExactly`: following cursors returns everything if and only if the table at the first request can be cut
   into pages without separating equal timestamps, a condition on table and limit alone; `WalkEnds`: every client that
   follows cursors stops, after a number of requests bounded beforehand. Both while what is appended meanwhile is newer.
8. `CachedClient.RehydrationExact`, `StoreFallbackExact`, `ClosedFrozenExactly` and `InformedExactly`: when a client that re-hydrated or
   fell back to its store is right, when a closed client can still change, and when callbacks have been told what the
   cache shows, as equivalences. `DeniedIsFinal`, `FailedIsFinal` and `ClosedAnswer`: how each other answer ends, for every run after it.

## Where the code does less than it says

Each of these is proved as an equivalence or has a witness, and the model follows the code.

- `Subscribe` promises an unsubscribe function that is safe to call; its first call after `Shutdown` closes a closed
  channel. The stream handler does exactly that when the server shuts down (`Broker.PanicsExactly`, `HandlerPanicsOnShutdown`).
- The stream is opened first so that no change is missed, but the evaluate request is sent without waiting for the connection
  and the first connect does not re-hydrate (`sdk/js/src/streaming.ts:79`, `sdk/js/src/cached-client.ts:222-223,285-291`). A toggle
  between an early snapshot and the subscription is lost until the flag is toggled again (`CachedClient.Convergence`, `EarlySnapshot`).
- Re-hydration after a reconnect is meant to close the gap of missed events; an answer older than what was already applied
  overwrites newer values (`CachedClient.RehydrationExact`, `StaleRehydration`). Callbacks are not told about any of it
  (`InformedExactly`, `RehydrationTellsNobody`).
- The store fallback drops the events buffered so far; `StoreFallbackExact` says when the client is right nevertheless.
- A closed client can still be filled from the store and resolve `ready`: if a load was under way, and also if the body of the hydration
  answer was being read, since the abort makes that read fail and its catch asks the store without looking at `closed`
  (`sdk/js/src/cached-client.ts:319-324`). `ClosedFrozenExactly` says that this is all; `CloseDuringBody`, `StoreLoadIgnoresClose`.
- An answer to a reconnect that comes before the first hydration is shown without the changes buffered since (`RehydrationExact`).
- Rule create and update never compare a rule's variants with the flag's, and a flag update may drop variants in use; evaluation then
  serves a variant the flag does not have (`RuleStore.IntegrityExactly`, `UnknownVariantAccepted`, `UsedVariantDropped`,
  `AdminEvaluation.UnknownVariantServed`).
- `Flag.Validate` accepts an empty variant key, also as the default; deleting a variant can then leave an invalid rule
  (`RuleStore.ValidExactly`, `EmptyDefaultBreaksRule`).
- A rule update checks priorities in the scope named by the request but keeps the stored scope of an existing ID
  (`RuleStore.DistinctExactly`, `UpdateBreaksDistinct`).
- `NewRateLimiter` speaks of a limit within each period; that holds for its own windows, and for any period of that length only
  with a limit of one (`RateLimit.PlainLimitExactly`). The clock is read before the lock is taken, so that readings may come out of
  order; with a limit above one and from two ticks of lateness on, the bound of result 6 holds for shorter intervals only (`BoundExactly`).
- `SetEnabled` is documented to fail without a state row; the repository upserts one. Flags and environments of one project always have
  a row, so that this shows for an environment of another project (`StateRows.SwitchUpserts`, `SetEnabledCreatesRow`).
- Cursors of the audit log are timestamps, so that events with equal ones can be skipped (`AuditPaging.CompleteExactly`, `TieIsMissed`).

## Model

| member | source | states |
|---|---|---|
| Domain.ValidateCondition | internal/domain/rule.go:46-65 | accepted exactly when well-formed; unsupported operators are the operator error |
| Domain.ValidateRule | internal/domain/rule.go:90-120 | accepted exactly when well-formed; which field is blamed for name, conditions, rollout and variant key |
| Domain.ValidateFlag | internal/domain/flag.go:41-86 | accepted exactly when type, key, distinct variants, bool pair, default and name are right; the first violated one is the field blamed |
| Domain.SlugRead | internal/domain/flag.go:33-39 | slugs are read byte by byte in ASCII codes; a valid key is one of at most 128 bytes |
| Domain.Gates | internal/app/rbac.go:11-24 | the viewer gate stops exactly unknown roles, the editor gate lets exactly editors and admins through, the admin gate exactly admins |
| Rollout.HashWrite | internal/domain/rollout.go:12-15 | one write folds the hash round over its bytes |
| Rollout.RoundIs | internal/domain/rollout.go:12 | for every 32-bit word a zero byte multiplies by 16777619, and any byte is xored in first |
| Rollout.StandardHashes | internal/domain/rollout.go:12 | the published hashes of the empty string and of "a" |
| Rollout.KnownHash | internal/domain/rollout_test.go:50 | the hash behind the bucket 82 the repository records for one flag and user |
| Rollout.KnownBucket | internal/domain/rollout.go:11-17 | one bucket computed through separator, hash and remainder |
| Rollout.Bucket | internal/domain/rollout.go:11-17 | the three writes hash the joined input, in 32-bit FNV-1a rounds; the bucket is the rest modulo 100 |
| Rollout.HashInputInjective | internal/domain/rollout.go:9-15 | for valid flag keys, different flag and user pairs never hash the same bytes |
| Rollout.ResolveRollout | internal/domain/evaluator.go:76-86 | the first entry whose cumulative weight exceeds the bucket; panics exactly on an empty slice |
| Rollout.ReturnsUnique | internal/domain/evaluator.go:76-86 | resolution is a function of rollout and bucket |
| Rollout.ResolvedIsOwner | internal/domain/evaluator.go:74-86 | below the total weight the resolved entry is exactly the owner of the bucket, so the fallback is unreachable |
| Rollout.BucketCount | internal/domain/evaluator.go:76-86 | of the buckets below a prefix's total, as many serve a variant as its weight there |
| Rollout.RolloutPercentage | internal/domain/rule.go:97-110 | an accepted rollout returns a variant for exactly its weight out of 100 buckets |
| Rollout.RedistributeRollout | internal/app/flag_service.go:287-306 | the rewrite loop computes the redistribution function the lemmas below are about |
| Rollout.RedistributedInterval | internal/app/flag_service.go:287-306 | first survivor keeps its buckets and gains the removed weight; others move right by the removed weight after them |
| Rollout.RedistributeValid | internal/app/flag_service.go:297-305 | weights still sum to 100; the rollout empties exactly if every entry was the deleted variant |
| Rollout.RedistributeMentions | internal/app/flag_service.go:290-296 | the rewritten rollout names only old variants and never the deleted one |
| Rollout.FirstSurvivorKeepsItsUsers | internal/app/flag_service.go:302-304 | no user of the first surviving entry changes variant |
| Rollout.RedistributedShare | internal/app/flag_service.go:287-306 | per variant the rewritten weight is the old one, plus the removed weight for the first survivor, and none for the deleted one |
| Evaluator.MatchesCondition | internal/domain/evaluator.go:101-148 | computes what the condition means; panics exactly when it indexes an empty value list |
| Evaluator.ConditionMeaning | internal/domain/evaluator.go:101-148 | operator by operator what a well-formed condition says: equality, occurrence as a substring, prefix or suffix, list and segment membership; a missing attribute never matches |
| Evaluator.ContainsMeaning | internal/domain/evaluator.go:125-126 | a text contains another exactly if it is something, that text, something |
| Evaluator.AffixMeaning | internal/domain/evaluator.go:127-130 | prefix and suffix as concatenations |
| Evaluator.MatchesAll | internal/domain/evaluator.go:89-96 | conjunction, with a panic exactly when a crashing condition is reached |
| Evaluator.TryRule | internal/domain/evaluator.go:50-68 | answers exactly for rules that fire, with the rule's key or its rollout's variant; panics exactly on a reached crash |
| Evaluator.SortingExists | internal/domain/evaluator.go:44-48 | a sorted permutation exists for every rule slice |
| Evaluator.Evaluate | internal/domain/evaluator.go:39-72 | for every order the unstable sort may give: the answer of a least-priority firing rule, else the default; panics only on an unvalidated rule |
| Evaluator.OutcomeUnique | internal/domain/evaluator.go:31-38 | with distinct priorities the answer is unique, whatever the slice order |
| Evaluator.FirstRuleDecides | internal/domain/evaluator.go:50-68 | the enabled rule of least priority whose conditions hold decides: its variant, or the rollout entry whose interval holds the user's bucket; a user without ID skips rollouts |
| Evaluator.DefaultOtherwise | internal/domain/evaluator.go:39-72 | the default variant when the flag is off or no rule applies, with the reason for it |
| Evaluator.OrderIrrelevant | internal/domain/evaluator.go:34-48 | every permutation of the rule slice gives the same answer when priorities are distinct |
| Evaluator.ValidRuleNeverCrashes | internal/domain/evaluator.go:120-130 | validated rules never index out of range |
| Evaluator.OutcomeVariant | internal/domain/evaluator.go:39-72 | reason and variant agree: disabled exactly when the state is not on, default key unless a rule matched, no empty rule variant |
| EvaluationService.CollectSlugs | internal/app/evaluation_service.go:245-254 | exactly the slugs the segment conditions name |
| EvaluationService.ResolveSegments | internal/app/evaluation_service.go:243-280 | named slugs intersected with actual memberships; fails exactly when a named lookup fails |
| EvaluationService.MembershipsExact | internal/app/evaluation_service.go:259-279 | a slug counts exactly if the project has that segment and the user is a member |
| EvaluationService.PreloadIsDirect | internal/app/evaluation_service.go:141-150 | evaluating with preloaded slugs equals evaluating segment conditions directly |
| EvaluationService.EvaluateRows | internal/app/evaluation_service.go:209-230 | a served view is right for the flag; succeeds whenever rules are valid and lookups work |
| EvaluationService.FlagByKey | internal/adapters/db/postgres_flag_repository.go:82-89 | a flag of that project and key; not-found exactly when there is none, a storage error exactly when the table fails |
| EvaluationService.RulesOf | internal/adapters/db/postgres_rule_repository.go:118-125 | exactly the rules of the flag and environment, or a storage error exactly when the table fails |
| EvaluationService.EvaluateOne | internal/app/evaluation_service.go:121-167 | forbidden and not-found exactly, a view that is right for the flag with that key, no answer while a table fails |
| EvaluationService.StatesByFlag | internal/app/evaluation_service.go:185-192 | the map answers every flag's state lookup; absent means no row |
| EvaluationService.RulesByFlag | internal/app/evaluation_service.go:195-202 | the groups are exactly each flag's rules |
| EvaluationService.EvaluateAll | internal/app/evaluation_service.go:172-234 | one right view per project flag, in listing order; a storage error while a table fails; succeeds whenever rules are valid and lookups work |
| EvaluationService.ServedFields | internal/app/evaluation_service.go:156-166 | a right view carries the flag's key and type, the answer's variant and reason, and the deprecated value exactly for flags that are not boolean |
| EvaluationService.ServedExists | internal/app/evaluation_service.go:220-229 | every right answer is carried by a right view |
| EvaluationService.FindStateExact | internal/app/evaluation_service.go:185-192 | a state lookup finds a row exactly if there is one |
| EvaluationService.ListFlagsExact | internal/app/evaluation_service.go:179-182 | the listing is exactly the project's flags |
| EvaluationService.ListedKeysDistinct | internal/app/evaluation_service.go:179-182 | with keys unique per project, listed keys are distinct |
| EvaluationService.ServedUnique | internal/app/evaluation_service.go:156-166 | with distinct priorities the right view is unique |
| EvaluationService.ServedEnabled | internal/app/evaluation_service.go:156-162 | the enabled bit of a view is the stored bit, off without a row |
| EvaluationService.BatchAgreesWithSingle | internal/app/evaluation_service.go:169-234 | for every flag key the batch holds exactly one view, the one the single call answers |
| RuleStore.PatchClean | internal/app/flag_service.go:283-306 | the rewritten rule never mentions the variant, serves old variants or the default, keeps identity and priority |
| RuleStore.PatchKey | internal/app/flag_service.go:284-301 | a rule without a rollout keeps its key unless that is the deleted one; a rollout of only the deleted variant becomes the default |
| RuleStore.PatchShares | internal/app/flag_service.go:287-306 | a rollout with a survivor still has weight 100; each variant keeps its buckets, the first survivor gains the removed ones, the deleted one has none |
| RuleStore.PatchIntervals | internal/app/flag_service.go:287-306 | where each surviving entry's interval is after the rewrite |
| RuleStore.PatchValid | internal/app/flag_service.go:283-306 | a valid rule stays valid exactly unless it served only the deleted variant and the default key is empty |
| RuleStore.EmptyDefaultBreaksRule | internal/domain/flag.go:55-80 | a good store whose flag has an empty default key, where deleting a variant leaves an invalid rule |
| RuleStore.ValidExactly | internal/app/flag_service.go:282-310 | rules stay valid exactly if no rewritten one served only the deleted variant under an empty default; checkable beforehand once the flag is written |
| RuleStore.NextKeepsSound | db/migrations/000007_create_rules.up.sql:1-11 | every call keeps row IDs, foreign keys, flag validity and unique keys per project, without proviso |
| RuleStore.InsertUnique | db/migrations/000003_recreate_flags.up.sql:12 | inserting a flag keeps keys unique per project exactly if its key is not taken there |
| RuleStore.NextKeepsInv | internal/app/rule_service.go:23-97 | a call meeting the two conditions keeps priorities distinct and rules valid |
| RuleStore.RunKeepsInv | internal/app/rule_service.go:23-97 | so does every run of rule, variant, flag and environment calls that meet them, with arbitrary storage failures |
| RuleStore.RunKeepsSound | db/migrations/000007_create_rules.up.sql:1-11 | every run keeps row IDs, foreign keys, flag validity and unique keys per project |
| RuleStore.RunKeepsIntegrity | internal/app/flag_service.go:325-337 | every run whose rules name stored variants and whose flag updates keep used ones leaves every rule referring to stored variants |
| RuleStore.DistinctExactly | internal/adapters/db/postgres_rule_repository.go:170-194 | a call that changes anything keeps priorities distinct exactly unless it updates a stored rule to a priority another rule of its stored scope has |
| RuleStore.UpdateBreaksDistinct | internal/app/rule_service.go:68-88 | a good store and an accepted update after which two rules of one scope share a priority |
| RuleStore.WithoutKeys | internal/app/flag_service.go:312 | removing a variant removes exactly its key and keeps keys distinct |
| RuleStore.DeleteVariantIntegrity | internal/app/flag_service.go:260-318 | after every prefix of writes rules refer to stored variants; on success none mentions the deleted one |
| RuleStore.DeletionShares | internal/app/flag_service.go:260-318 | the rules a completed deletion stores give each variant exactly those buckets |
| RuleStore.DeletingInPlace | internal/app/flag_service.go:283-318 | a deletion leaves every rule its ID, scope and priority and every other flag untouched |
| RuleStore.IntegrityExactly | internal/app/rule_service.go:23-88 | a call that changes anything keeps references intact exactly if a written rule names only variants of its stored flag and a flag update keeps the used ones |
| RuleStore.UnknownVariantAccepted | internal/app/rule_service.go:23-59 | a good store and an accepted rule naming a variant its flag never had |
| RuleStore.UsedVariantDropped | internal/adapters/http/flag_handler.go:221-257 | a good store and an accepted flag update that drops a variant in use |
| RuleStore.RenamedKeys | internal/app/flag_service.go:207-214 | renaming a variant keeps every key in its place |
| RuleStore.UpsertedRow | internal/adapters/db/postgres_rule_repository.go:170-194 | an upsert writes every field of the request but flag and environment of an existing row, and no other row |
| RuleStore.CascadeExact | db/migrations/000007_create_rules.up.sql:1-11 | a cascade takes exactly the rules of the flag or environment |
| RuleStore.EditedFields | internal/adapters/http/flag_handler.go:221-257 | an update changes exactly the fields it carries |
| RuleStore.AddingKeepsValid | internal/app/flag_service.go:180-188 | a valid flag stays valid when a variant with a new key is added |
| RuleStore.RenamingKeepsValid | internal/app/flag_service.go:207-220 | a valid flag stays valid when a variant is renamed |
| RuleStore.RemovingKeepsValid | internal/app/flag_service.go:312-315 | a valid flag stays valid when a variant other than its default is removed |
| RuleAdmin.Services.PriorityTaken | internal/app/rule_service.go:40-48 | finds a clash exactly when another rule of the scope has the priority |
| RuleAdmin.Services.Create | internal/app/rule_service.go:23-59 | success condition with foreign keys, conflict condition, new state, unchanged on error |
| RuleAdmin.Services.Update | internal/app/rule_service.go:68-88 | success and conflict conditions, upserted state, unchanged on error |
| RuleAdmin.Services.Delete | internal/app/rule_service.go:92-97 | success condition and new state |
| RuleAdmin.Services.PatchRule | internal/app/flag_service.go:284-306 | the loop body computes the rewrite the lemmas are about |
| RuleAdmin.Services.IndexOfVariant | internal/app/flag_service.go:249-258 | found exactly when present; cutting there removes the variant |
| RuleAdmin.Services.PatchAffected | internal/app/flag_service.go:283-310 | which rules are rewritten when a write fails; all of them exactly when enough writes succeed |
| RuleAdmin.Services.RemoveVariant | internal/app/flag_service.go:232-321 | every outcome is an allowed transition; each refusal exactly; success exactly on valid flags; the flag changes only after a complete rewrite |
| RuleAdmin.Services.AddVariant | internal/app/flag_service.go:169-194 | an allowed transition; each refusal exactly; success exactly on valid flags; unchanged on error |
| RuleAdmin.Services.RenameVariant | internal/app/flag_service.go:199-226 | an allowed transition renaming the first variant with the key; not-found exactly; success exactly on valid flags |
| RuleAdmin.Services.UpdateFlag | internal/adapters/http/flag_handler.go:221-257 | an allowed transition writing the present fields; not-found and success exactly; unchanged on error |
| RuleAdmin.Services.InsertFlag | internal/app/flag_service.go:81-120 | an allowed transition; conflict and success exactly; undone on error if the compensating delete works |
| RuleAdmin.Services.DropFlag | internal/app/flag_service.go:406-415 | an allowed transition; success exactly; the flag's rules go with it |
| RuleAdmin.Services.InsertEnvironment | internal/app/environment_service.go:26-68 | an allowed transition; success exactly; undone on error if the compensating delete works |
| RuleAdmin.Services.DropEnvironment | internal/app/environment_service.go:116-121 | an allowed transition; success exactly; the environment's rules go with it |
| AdminEvaluation.AdminRunsEvaluate | internal/domain/evaluator.go:39-72 | on every store a run of careful admin calls reaches, evaluation has one answer and no rule crashes it |
| AdminEvaluation.ServesStoredVariant | internal/domain/evaluator.go:39-72 | while a flag's rules refer to stored variants the served variant is one of them |
| AdminEvaluation.AdminRunsServeStored | internal/domain/evaluator.go:39-72 | on every store such a run reaches with calls that keep references intact, every user is served a variant the flag has |
| AdminEvaluation.AdminRunsViewStored | internal/app/evaluation_service.go:156-166 | so it is for views: value key and value are variants the flag has |
| AdminEvaluation.UnknownVariantServed | internal/app/rule_service.go:23-59 | an accepted rule that makes evaluation serve a variant the flag does not have |
| AdminEvaluation.DeletionServesStoredVariant | internal/app/flag_service.go:228-321 | with references intact before, every user gets a stored variant throughout a deletion, afterwards never the deleted one |
| StateRows.NextKeepsInv | internal/app/flag_service.go:77-120 | each completed call keeps coverage, references, faithful bits and unique names |
| StateRows.RunKeepsInv | internal/app/environment_service.go:26-68 | over every run each flag and environment of a project have a row, on exactly as the last stored toggle said, and keys and slugs stay unique within their project |
| StateRows.HistoryGrows | internal/app/flag_service.go:88-92 | the toggle log only grows and an ID that is gone never comes back |
| StateRows.BitSince | internal/adapters/db/postgres_flag_environment_state_repository.go:94-102 | between any two moments of a run a row is on as the last toggle in between said, else as before |
| StateRows.SwitchUpserts | internal/adapters/db/postgres_flag_environment_state_repository.go:94-102 | a toggle always leaves a row, and finds none only for an environment of another project |
| StateRows.SetEnabledCreatesRow | internal/app/flag_service.go:370-384 | a run in which a toggle creates a row instead of failing |
| StateRows.LostUndoExactly | internal/app/flag_service.go:114-117 | when the compensating delete fails too, coverage holds exactly if all rows had been written |
| StateRows.UndoFlag | internal/app/flag_service.go:97-117 | deleting a half-created flag restores the store |
| StateRows.UndoEnv | internal/app/environment_service.go:48-66 | deleting a half-created environment restores the store |
| StateRows.Services.constructor | internal/app/flag_service.go:29-31 | an empty store |
| StateRows.Services.InsertFlagRows | internal/adapters/db/postgres_flag_environment_state_repository.go:37-47 | which rows a batch leaves when an insert fails; all exactly when enough calls succeed |
| StateRows.Services.InsertEnvRows | internal/adapters/db/postgres_flag_environment_state_repository.go:37-47 | the same for a new environment |
| StateRows.Services.NewFlag | internal/app/flag_service.go:81-120 | validation, success and conflict exactly; an error leaves flags and rows as before |
| StateRows.Services.NewEnvironment | internal/app/environment_service.go:26-68 | success and conflict exactly; an error leaves environments and rows as before |
| StateRows.Services.DeleteFlagRow | db/migrations/000005_flag_environment_states.up.sql:1-6 | deleting a flag removes its rows and nothing else |
| StateRows.Services.DeleteEnvRow | db/migrations/000005_flag_environment_states.up.sql:1-6 | deleting an environment removes its rows and nothing else |
| StateRows.Services.RemoveFlag | internal/app/flag_service.go:406-415 | success condition, cascade, unchanged on error |
| StateRows.Services.RemoveEnvironment | internal/app/environment_service.go:116-121 | success condition, cascade, unchanged on error |
| StateRows.Services.Switch | internal/app/flag_service.go:374-384 | success condition; exactly the one row is written |
| Members.NextKeepsInv | internal/app/project_member_service.go:103-171 | each completed call leaves every created project an admin and every member a project |
| Members.RunKeepsAdmins | internal/app/project_member_service.go:66-171 | so does every sequence of calls |
| Members.Services.constructor | internal/app/project_member_service.go:29-31 | an empty store |
| Members.Services.Create | internal/app/project_service.go:26-58 | success, conflict and validation errors exactly; on success the creator is an admin |
| Members.Services.Add | internal/app/project_member_service.go:66-98 | success condition, new state, unchanged on error |
| Members.Services.CountAdmins | internal/app/project_member_service.go:121-130 | found, target-is-admin and the exact number of admins |
| Members.Services.SetRole | internal/app/project_member_service.go:103-136 | success, not-found and last-admin exactly, new state, unchanged on error |
| Members.Services.Remove | internal/app/project_member_service.go:140-171 | success, not-found and last-admin exactly, new state, unchanged on error |
| Broker.EventBroker.constructor | internal/adapters/http/broker.go:29-34 | no subscribers, open |
| Broker.EventBroker.Publish | internal/adapters/http/broker.go:39-55 | offers the event to every subscriber once and to nobody else; refused exactly when closed |
| Broker.EventBroker.SubscribeNext | internal/adapters/http/broker.go:61-85 | a fresh open channel, or none when closed |
| Broker.EventBroker.UnsubscribeOnce | internal/adapters/http/broker.go:75-82 | new state, and the panic exactly when the channel is already closed |
| Broker.EventBroker.ShutdownAll | internal/adapters/http/broker.go:89-102 | closes exactly the mapped channels, once |
| Broker.InvStep | internal/adapters/http/broker.go:39-102 | every interleaved step keeps mapped channels open and the books balanced |
| Broker.RunKeepsInv | internal/adapters/http/broker.go:39-102 | so does every run: received, queued and dropped add up to offered, order kept |
| Broker.PanicsExactly | internal/adapters/http/broker.go:75-101 | no send hits a closed channel; the one panic is a first unsubscribe after shutdown, always |
| Broker.HandlerPanicsOnShutdown | internal/adapters/http/sse_handler.go:73-93 | the stream handler's deferred unsubscribe runs into it |
| Broker.PublishAnyOrder | internal/adapters/http/broker.go:47-52 | in any map order a publish has the effect of the one-step publish |
| Broker.PublishReachesOnce | internal/adapters/http/broker.go:39-55 | every publish that ends, with any others overlapping it, has sent its event exactly once to each channel subscribed when it began |
| Broker.OfferedIsSent | internal/adapters/http/broker.go:47-52 | over every run a channel is offered exactly what was sent to it, in order |
| Broker.PublishOffers | internal/adapters/http/broker.go:47-52 | one channel in a publish: the event is queued exactly if there is room and dropped otherwise; other channels stay as they are |
| Broker.SubsequenceLength | internal/adapters/http/broker.go:48-51 | a subsequence as long as the whole is the whole |
| Broker.LosslessExactly | internal/adapters/http/broker.go:36-55 | nothing is lost exactly if nothing was dropped, exactly if the subscriber never lagged its buffer |
| Sse.IndexOfBlankLine | sdk/js/src/streaming.ts:236 | the first blank line, or none anywhere |
| Sse.DrainBuffer | sdk/js/src/streaming.ts:235-241 | the inner loop takes off every finished block |
| Sse.ReadStream | sdk/js/src/streaming.ts:226-242 | for every chunking, the blocks of the whole text and its unfinished rest, which holds no blank line |
| Sse.CutExact | sdk/js/src/streaming.ts:234-241 | cutting loses nothing and cuts everywhere it can |
| Sse.CutUnique | sdk/js/src/streaming.ts:234-241 | only one cut does |
| Sse.CutContinues | sdk/js/src/streaming.ts:232-241 | more text only continues the cut |
| Sse.LinesExact | sdk/js/src/streaming.ts:251 | splitting into lines loses nothing and splits everywhere |
| Sse.TrimExact | sdk/js/src/streaming.ts:254-258 | trimming takes away all outer white space and nothing else |
| Sse.ProcessBlock | sdk/js/src/streaming.ts:250-292 | the signals of a block: changes for parsed data lines, an error for others |
| Sse.StreamLoop | internal/adapters/http/sse_handler.go:96-147 | writes exactly the frames of ticks and wanted events; what they carry is `JsTellsPublished` and `GoDeliversPublished` |
| Sse.JsRoundTrip | sdk/js/src/streaming.ts:226-292 | the client is told exactly its changes, in order, nothing left over |
| Sse.JsTellsPublished | internal/adapters/http/sse_handler.go:119-137 | one change for each published change of the project and environment, in order, all six fields as published |
| Sse.JsPrefix | sdk/js/src/streaming.ts:226-292 | at every moment it has been told a prefix of them |
| Sse.ScanStream | sdk/go/subscribe.go:128-181 | the line loop delivers what each scanned line means for its key |
| Sse.GoRoundTrip | sdk/go/subscribe.go:127-181 | a subscription gets exactly its key's changes, in order |
| Sse.GoDeliversPublished | sdk/go/subscribe.go:156-181 | one update for each published state change of the key in its project and environment, in order, with key, bit and time as published |
| Sse.GoPrefix | sdk/go/subscribe.go:127-181 | wherever the text stops, in the middle of a line too, a subscription has been delivered a prefix of its key's changes |
| Sse.TornLine | sdk/go/subscribe.go:145-154 | a torn data line delivers nothing |
| CachedClient.Client.constructor | sdk/js/src/cached-client.ts:137-159 | the initial state |
| CachedClient.Client.PopulateCache | sdk/js/src/cached-client.ts:162-174 | the cache becomes exactly the response |
| CachedClient.Client.ApplyCacheEvent | sdk/js/src/cached-client.ts:191-204 | enabled and reason change for a cached key, each of its subscribers is called once |
| CachedClient.Client.DrainBuffer | sdk/js/src/cached-client.ts:335-338 | the buffered changes are applied in order and the buffer is emptied |
| CachedClient.Client.OnFlagChange | sdk/js/src/cached-client.ts:207-214 | ignored when closed, buffered before hydration, applied after |
| CachedClient.Client.OnHydrated | sdk/js/src/cached-client.ts:326-344 | populate, drain in order, resolve; rejected when closed |
| CachedClient.Client.FailHydration | sdk/js/src/cached-client.ts:253-257 | closed and rejected |
| CachedClient.Client.OnHydrationDenied | sdk/js/src/cached-client.ts:300-312 | fails with the code, or as closed |
| CachedClient.Client.OnRequestFailed | sdk/js/src/cached-client.ts:313-361 | asks the store, or rejects as closed |
| CachedClient.Client.OnAccepted | sdk/js/src/cached-client.ts:297-320 | a good status starts the body read, or is rejected as closed |
| CachedClient.Client.OnBodyFailed | sdk/js/src/cached-client.ts:318-324 | a failed body read asks the store, closed or not |
| CachedClient.Client.OnMalformed | sdk/js/src/cached-client.ts:326-361 | a body that cannot be read to the end leaves its first rows and asks the store, or is rejected as closed |
| CachedClient.Client.GiveUp | sdk/js/src/cached-client.ts:300-303 | the request ends and is rejected as closed |
| CachedClient.Client.OnStoreLoaded | sdk/js/src/cached-client.ts:260-282 | replaces the cache by the stored entries, or fails with the original error |
| CachedClient.Client.OnRehydrated | sdk/js/src/cached-client.ts:244-245 | overwrites the cache unless closed |
| CachedClient.Client.CloseClient | sdk/js/src/cached-client.ts:410-415 | marks the client closed |
| CachedClient.Client.SubscribeTo | sdk/js/src/cached-client.ts:417-423 | adds the callback once |
| CachedClient.Client.UnsubscribeFrom | sdk/js/src/cached-client.ts:424-426 | deletes the callback |
| CachedClient.CachedValue | sdk/js/src/cached-client.ts:191-194 | a cached flag is on as its last event said and its reason is then "default"; variant, value and time never follow events |
| CachedClient.PopulatedFromSnapshot | sdk/js/src/cached-client.ts:162-174 | exactly the response's keys, with the server's state at the snapshot |
| ToggleLog.ReplayExactly | sdk/js/src/cached-client.ts:331-338 | replaying events over an older value gives the current one exactly if the key is among them or the value was current when they began |
| ToggleLog.ReplayOverLater | sdk/js/src/cached-client.ts:331-338 | replaying events a later snapshot already reflects does no harm |
| ToggleLog.LastValueIs | sdk/js/src/cached-client.ts:335-338 | the last value is that of the toggle after which the key is not toggled |
| CachedClient.HydratedCache | sdk/js/src/cached-client.ts:206-214 | for every interleaving, reconnect answers before hydration included, the cache is the snapshot with all events on top |
| CachedClient.HydratedVariant | sdk/js/src/cached-client.ts:165-172 | for every interleaving the served variant and the time are those of the snapshot, and so is the reason until a toggle |
| CachedClient.Convergence | sdk/js/src/cached-client.ts:284-344 | for any snapshot point, exactly the flags of the answer are cached, and each is right exactly if toggled since the subscription or not older in the answer |
| CachedClient.EarlySnapshot | sdk/js/src/cached-client.ts:284-296 | for every snapshot before the subscription a history that leaves the client wrong until the next toggle |
| CachedClient.RehydrationExact | sdk/js/src/cached-client.ts:222-250 | after re-hydration a flag is right exactly if toggled since or not stale in the answer; before the first hydration it shows the answer alone and the changes stay buffered |
| CachedClient.StaleRehydration | sdk/js/src/cached-client.ts:222-250 | for every older answer a history that leaves the client wrong |
| CachedClient.ClosedIsFrozen | sdk/js/src/cached-client.ts:207-208 | a closed client with neither a body read nor a store load under way never changes |
| CachedClient.ClosedFrozenExactly | sdk/js/src/cached-client.ts:260-344 | a closed client never changes whatever arrives, exactly if neither was under way |
| CachedClient.CloseDuringBody | sdk/js/src/cached-client.ts:318-324 | closed between headers and body: the store fills the closed client and resolves it, or rejects it as an invalid response |
| CachedClient.CloseDuringBodyReached | sdk/js/src/cached-client.ts:410-415 | such a state is reached by one answer and a close |
| CachedClient.StoreLoadIgnoresClose | sdk/js/src/cached-client.ts:260-275 | a load under way when the client is closed fills it and settles it once, whatever else arrives, and nothing changes it after that |
| CachedClient.ClosedAnswer | sdk/js/src/cached-client.ts:299-329 | closed before the answer or before its body is parsed: any answer but a failing body read rejects as closed, for good |
| CachedClient.ReadyIsFinal | sdk/js/src/cached-client.ts:152-159 | over every run `ready` settles at most once |
| CachedClient.DeniedIsFinal | sdk/js/src/cached-client.ts:305-312 | for every run before and after it, a 401 or 403 closes the client and rejects with its code; nothing is shown or told any more, a store answer included |
| CachedClient.FailedIsFinal | sdk/js/src/cached-client.ts:253-282 | any other failure with an empty store closes the client and rejects with exactly its code, for good |
| CachedClient.StoreFallbackExact | sdk/js/src/cached-client.ts:260-282 | however the hydration failed, for any stored entries: the buffer is never applied, and a flag is right exactly if toggled after the load or stored with the value it then had |
| CachedClient.RestoredLast | sdk/js/src/cached-client.ts:263-273 | the restored cache holds the last stored entry of each key |
| CachedClient.EventsTell | sdk/js/src/cached-client.ts:191-204 | applying events tells a registered callback the last value of a cached key among them and nothing else |
| CachedClient.UnsubscribeExact | sdk/js/src/cached-client.ts:417-427 | subscribing and unsubscribing change exactly the one callback of the one key |
| CachedClient.UnsubscribedIsSilent | sdk/js/src/cached-client.ts:424-426 | over every run a callback that is not subscribed is told nothing |
| CachedClient.ReseedInforms | sdk/js/src/cached-client.ts:162-174 | after the cache is replaced, when callbacks have been told what it shows, as an equivalence |
| CachedClient.InformedExactly | sdk/js/src/cached-client.ts:191-282 | for each action, the exact condition under which callbacks have still been told what the cache shows |
| CachedClient.UntoldBeforeHydration | sdk/js/src/cached-client.ts:206-214 | until the first hydration nobody is told anything, so hydration and store fallback keep callbacks informed |
| CachedClient.SubscribersInformed | sdk/js/src/cached-client.ts:61-74 | over every run whose actions meet that condition, what a registered callback was last told is what the cache shows |
| CachedClient.RehydrationTellsNobody | sdk/js/src/cached-client.ts:244-245 | a run in which re-hydration switches a flag off and its callback was last told on |
| Pipeline.SignalsSplit | sdk/js/src/streaming.ts:226-242 | signals before and after any chunk boundary join to those of the whole text |
| Pipeline.ClientIsHandedToggles | sdk/js/src/streaming.ts:250-292 | the client is handed exactly its scope's toggles among what was written |
| Pipeline.StreamConverges | sdk/js/src/cached-client.ts:284-344 | writer to client for every chunking, arrival point and snapshot point: right exactly for flags toggled since the subscription or not older in the answer |
| Pipeline.AnswerIsSnapshot | internal/app/evaluation_service.go:204-231 | what `EvaluateAll` serves is a snapshot of the toggle log |
| Pipeline.CachedIsEvaluated | internal/adapters/http/evaluation_handler.go:148-158 | for every interleaving the variant a hydrated client serves is a right answer of the evaluator at the snapshot, with the evaluator's reason until a toggle |
| Pipeline.BrokerToCache | internal/adapters/http/broker.go:39-55 | the same from the broker on, given a store at some point of the toggle log |
| Pipeline.PublishedToggles | internal/app/flag_service.go:382-388 | the published events of a scope are its environment's toggles by key |
| Pipeline.RowIsLogged | internal/app/flag_service.go:374-388 | at every moment of a store run each row is on as the published log says |
| Pipeline.RunIsStoreAt | internal/app/evaluation_service.go:184-192 | so what the evaluation reads at any moment is a point of that log |
| Pipeline.EndToEnd | internal/app/flag_service.go:374-388 | stored toggle to cache, given that each stored toggle is published in order and keys are not reused: cached flags agree with the store exactly under that condition |
| RateLimit.RateLimiter.constructor | internal/adapters/http/ratelimit.go:29-35 | no windows |
| RateLimit.RateLimiter.Allow | internal/adapters/http/ratelimit.go:59-76 | the decision and the new table |
| RateLimit.KeysIndependent | internal/adapters/http/ratelimit.go:65-75 | a key's window and admissions depend on its own requests only |
| RateLimit.TraceOrdered | internal/adapters/http/ratelimit.go:59-76 | for any clock readings: windows open more than their length apart, start with their opener and hold at most the limit |
| RateLimit.RefusedExactly | internal/adapters/http/ratelimit.go:65-75 | a request is refused exactly if the last `limit` admitted for its key share a window that has not run out |
| RateLimit.TraceInside | internal/adapters/http/ratelimit.go:59-76 | every admission falls into its window, or before it by no more than a reading may be late |
| RateLimit.AtMostLimitPerWindow | internal/adapters/http/ratelimit.go:27-28 | at most `limit` admissions share a window, in every run |
| RateLimit.AtMostTwiceTheLimit | internal/adapters/http/ratelimit.go:58-76 | at most `2 * limit - 1` admissions in any closed interval whose length, with limit, window and lateness, is bounded |
| RateLimit.BoundIsTight | internal/adapters/http/ratelimit.go:58-76 | a run reaching that bound, for every limit and length |
| RateLimit.PlainLimitExactly | internal/adapters/http/ratelimit.go:27-28 | the plain limit holds in every such interval of every run exactly for a limit of one |
| RateLimit.BoundExactly | internal/adapters/http/ratelimit.go:58-76 | for every limit, window, lateness and length, the bound holds in every run and interval exactly then |
| RateLimit.TooLate | internal/adapters/http/ratelimit.go:59-63 | a run exceeding the bound for any limit above one and any length beyond the window less all but one tick of lateness |
| RateLimit.TooLong | internal/adapters/http/ratelimit.go:65-69 | a run exceeding the bound for any interval longer than the window |
| AuditPaging.EffectiveLimit | internal/domain/audit_event.go:49-57 | a limit from 1 to 200 is kept, a smaller one becomes 50, a larger one 200 |
| AuditPaging.ListPage | internal/adapters/http/audit_handler.go:55-140 | one entry per row, each field as in the row; a cursor exactly behind a full page, the last timestamp |
| AuditPaging.FromFirstTable | internal/adapters/db/postgres_audit_repository.go:49-56 | if what is appended is newer, every returned event was there at the first request |
| AuditPaging.LaterIsOlder | internal/adapters/db/postgres_audit_repository.go:49-56 | later pages hold strictly older events |
| AuditPaging.WalkExact | internal/adapters/http/audit_handler.go:99-135 | at most once, newest first; once ended complete exactly if no page ended inside a group of equal timestamps |
| AuditPaging.CompleteExactly | internal/adapters/http/audit_handler.go:99-135 | an ended walk is complete exactly if the first table can be cut into pages without separating equal timestamps |
| AuditPaging.ForcedCut | internal/adapters/db/postgres_audit_repository.go:49-56 | a cut that takes exactly one page is the one the database makes, whatever order it gives to ties |
| AuditPaging.PageExists | internal/adapters/db/postgres_audit_repository.go:33-77 | every request has an answer |
| AuditPaging.FollowCursors | internal/adapters/http/audit_handler.go:123-135 | over a table nobody writes to the cursors lead to an ended walk |
| AuditPaging.DistinctTimesComplete | internal/adapters/http/audit_handler.go:99-135 | with distinct timestamps nothing is missed |
| AuditPaging.TieIsMissed | internal/adapters/http/audit_handler.go:131-135 | two equal timestamps and pages of one: an event is missed |
| AuditPaging.WalkEnds | internal/adapters/http/audit_handler.go:131-135 | as long as a cursor is offered the pages so far are bounded by the first table's full pages, if what is appended is newer |
| Backoff.WrappedIsCoarse | sdk/go/subscribe.go:205-206 | from the first wrap on the shifted word is a multiple of 2^45 |
| Backoff.ClampIsIntended | sdk/go/subscribe.go:204-209 | the clamped 64-bit shift is min(100 ms times 2^(attempt-1), 30 s) for every attempt |
| Backoff.IntendedSchedule | sdk/go/subscribe.go:201-203 | 100 ms first, twice as long each time, 30 s at most |
| Backoff.BackoffDelay | sdk/go/subscribe.go:204-217 | that delay times a factor from 0.9 to 1.1 the generator picks, in whole nanoseconds |

## Left out

- HTTP handlers, authentication, middleware, metrics, configuration, the web UI, the CLI, the docs site and the MCP adapter.
- SQL text and transactions: repositories are maps and sequences with the stated keys; the tenant transaction that commits
  after the handler is not modelled.
- Pipeline.EndToEnd: assumes that each stored toggle is published, in the order of the writes; `SetEnabled` does the two one after
  the other, without atomicity, and only logs a failed publish. Flag keys must not be reused by a recreated flag in the
  history considered (`KeyIsOwn`). It speaks of the `enabled` bit only; the cached variant is the one evaluated at the
  snapshot and does not follow toggles, as `CachedIsEvaluated` shows.
- Concurrent admin calls: run invariants are over completed calls in sequence.
- JSON, base64 and UTF-8 encoding, time formatting and the 64 KB line limit of the Go scanner.
- An unbuffered broker channel handing an event straight to a waiting reader; the server uses a buffer of 64.
- Callbacks of the cached client that subscribe or unsubscribe while being called, and persisting the cache to the store.
- Callbacks that throw: one that throws while the buffer is drained sends a client that already counts as hydrated into the store
  fallback, with the rest of the buffer left over (`sdk/js/src/cached-client.ts:335-361`).
- Reconnect loops, heartbeat timers and the JavaScript backoff.
- The evaluation-audit cursor, whose timestamps are cut to whole seconds.
- Evaluation events, statistics and audit records: best effort, no effect on results.
- The Go and Python cached clients, flag list pagination, API keys and segment administration.
- EvaluationService.RulesOf: rows come in table order, not by priority; `Evaluate` sorts for itself and its answer does not depend on the order.
- EvaluationService.EvaluateAll: the evaluation timestamp is not part of the result.
- Sse.ScanStream: what is sent on the error channel, and the parse of the timestamp, are not modelled; neither keeps an update from being delivered.
- Backoff.BackoffDelay: floating point is taken as exact reals, so rounding of the jitter product is not modelled.
- AuditPaging.ListPage: request parsing and cursor encoding are not modelled; cursors are the timestamps themselves.
