# Verified models of the AIQ middleware

Dafny models of the state-changing logic of the middleware: the 2.0 to 3.0 data
migration, the cache and exchange of on-behalf-of (OBO) tokens, the token
blacklist, token validation and minting, the administrator's views of agents,
groups and directory users, and the repair and back-fill scripts. Loops over
rows and objects that update themselves are methods and classes; what they
guarantee is stated about specification functions and step relations, and
proved as lemmas over every input, history or run.

Check the project with `dafny verify dfyconfig.toml`.

## What is modelled

**Migration** (`Migration*.dfy`). `TargetSession` holds the target database
twice: the uncommitted tables `live` and the committed tables `saved`. One
method migrates one row; one loop per stage builds an id map; `Migrate` is the
whole run. A row lookup may return any row that matches the duplicate check.
Each row can fail (a `Fault`), each clock reading and the parent-link pass's
failure come from an `Oracle`. `Migrate` returns, as a ghost, the states its
stages went through, and these form an `Execution`; the theorems are about every
execution.

* *Safety* (`ExecutionSafe`, and after each row `ExecutionSafeThroughout`), for
  every source, every consistent target and every pattern of failures: foreign
  keys resolve, the id maps land on existing rows, a new message belongs to its session's owner, a new
  attachment to its message's owner, and no target row is lost or moved.
* *Convergence* (`ExecutionConverges`), for a source whose duplicate keys are
  distinct and do not come from the clock (`Distinct`). Every state a run can
  leave, however many rows failed, is a *partial image* of the source. A run
  without failures turns any partial image, in particular the empty database or
  what a crashed run left, into the *full image*. A run on the full image changes
  nothing, whatever fails. The same holds beside target rows that no source row
  can be looked up by (`ConvergesBesideBystanders`).
* *Columns* (`MigrationColumns`). After any run, whatever failed, each row is as it
  was or says what the last source row mapped to it says: its role, name, status
  and agent, with the other columns from the source row whose id it bears. No run
  adds a second row for an email, graph id, message or file (`NoSecondRow`).
* *Conversations*. In the full image the parent paths are exactly the source's
  reply paths. Without distinct keys two migrated messages share a target row
  exactly when they were looked up by the same key (`MergedIffKeysAgree`), and a
  run leaves a parent cycle exactly when the source's replies, read from key to
  key, have one (`RunCycleByKeysIff`, `CleanRunCycleIff`). With different keys
  nothing is merged and an acyclic source stays acyclic
  (`DifferentKeysStayAcyclic`). The target must have no parents and no repeated
  keys before.
* *Reruns*. Clean reruns on a run's own output rebuild its id maps, whatever rows
  their lookups pick, exactly when every row is recognised (`RerunRebuildsIff`):
  each migrated row has a timestamp or graph id of its own and no other target row
  matches its key, and each refused row is refused again. For sessions the target
  is the one met at their turn, since an earlier row may have renamed another.
  They also change no table exactly when, in addition, the parents are those the
  source tells and every linked attachment finds a row, and none with URLs
  (`RerunLeavesAllIff`). This includes runs that reused rows under other ids.
* *Statistics*. Each printed counter equals the number of attachments with that
  outcome, the new rows and the rows whose URLs were blanked
  (`AttachmentAccounting`).

**Tokens.** `OboCache` is the two-tier cache over histories of operations, with
Redis faults per call. Its answers are safe under every fault; without faults, and
likewise while Redis is down throughout, it refines one map from user token to
last stored token (`FaultlessAnswerIff`, `OutageAnswerIff`). `TokenBlacklist` compares
lazily and eagerly emptied states with a record of what was said about each
token. `Base64Url` and `McpToken` take a compact JWT apart character by
character; the padding rule inverts unpadded base64url (section 5 of RFC 4648,
section 7.1 of RFC 7515) at every length. `TokenValidation` is the retry tree
over two issuers and up to two new signing-key clients.

**Administration.** `UserAgents` proves the batched page equal to the
one-user endpoint and says what either lists. `UserGroups` merges two sources of
groups and cuts pages. `AdSync` is the directory synchronisation.

**Repair and back-fill.** `RunGrouping` (conversation to runs, and the reconcile
loop), `AttachmentRepair`, `OpenApiFilter`, `UsageBackfill`.

## Conventions

* Identifiers are natural numbers; an absent text is `""` where the code treats
  the two alike; columns that are copied and never read are one field `info`.
* SHA-256 cache keys are injective, so an entry is keyed by the user token.
  HS256, RS256 and JSON are abstract: `Codec` with a round trip (`Lawful`), and
  a token that verifies under one key only.
* Cache and blacklist times are reals, attachment times are microseconds,
  claims are whole seconds.
* The target database of the migration starts `Consistent`, which its foreign
  keys enforce. The agent row's id is a parameter. A failed first query of the
  user, session, message or parent stage is a source table with no rows.
* A row's clock reading is one value; `migrate_message` reads the clock a second
  time for the row it inserts.
* A query without an ORDER BY returns the table's order; both agent endpoints see the same one.
  The RBAC pivot service is taken to read the pivot row that the page query reads.
* JWT claims are checked in the order of PyJWT 2.10: signature, required claims,
  `iat`, `nbf`, `exp`, `iss`, and a minted token's null subject after these. For
  Azure tokens the audience and subject are checked by the middleware.

## Where the code departs from what it says

* Messages with one duplicate key are merged, and their replies with them. A reply
  to a message merged with it makes the row its own parent
  (`MergedReplyIsItsOwnParent`); replies between merged messages can make longer
  cycles from an acyclic source (`MergedRepliesFormACycle`).
* A session with neither a graph id nor a creation time, and a message with no
  time, do not match themselves on a rerun: they collide with their own row and
  fall out of the id map, with the messages of the session and the attachments of
  those messages (`UnkeyedSessionTakesItsRows`, `UnkeyedMessageTakesItsRows`).
* A session with a key of its own can be taken for another on a rerun, which may
  reopen an archived one (`KeyedSessionMayBeTakenForAnother`).
* Attachments without a migrated message, and those that fail, appear in none of
  the printed statistics; the counters add up to the rows exactly when every row
  was handled (`AttachmentAccounting`).
* A token stored with a negative lifetime is refused by Redis and lands in the
  memory tier; an older live token in Redis is then served instead
  (`StoreDecidesIff`).
* A token that went to the memory tier because Redis failed stays there when a
  newer one is stored in Redis, and is served again once the newer one has
  expired (`OlderTokenComesBack`, `StoreDecidesIff`).
* The session reconciliation says that up-to-date sessions are skipped and a
  rerun is idempotent (`aldar_middleware/migrations/data_migration_data_2_0.py:318-325`).
  Run ids are generated by the query itself, so a rerun
  writes every session again (`FreshIdsSkipNothing`), though only run ids change
  (`RerunChangesOnlyRunIds`).
* The attachment repair's description says one second
  (`aldar_middleware/migrations/fix_attachment_linkage.py:53`); the queries use
  five. The model uses five.
* After an error the attachment repair reports no fix, although the fixes of the
  rows before it are committed. The report is right exactly when none of those
  rows was repairable (`ReportedZeroIff`, `ErrorHidesAFix`).
* A token whose signing key is no longer served is still accepted while the key
  is cached (`CacheMattersIff`).

## Model

| member | source | states |
|---|---|---|
| MigrationSafety.UserStepSafe | aldar_middleware/migrations/data_migration_2_0.py:190-266 | whatever fails, migrating a user keeps every reference and row; a returned id is an existing user with that email |
| MigrationSafety.SessionStepSafe | aldar_middleware/migrations/data_migration_2_0.py:314-403 | the same for a session; a returned id is a session of the mapped user with the default agent |
| MigrationSafety.MessageStepSafe | aldar_middleware/migrations/data_migration_2_0.py:452-593 | the same for a message; a returned id is a message of the mapped session, and a new one belongs to that session's owner |
| MigrationSafety.AttachmentStepExtends | aldar_middleware/migrations/data_migration_2_0.py:642-786 | an attachment step adds at most its own row, exactly when it reports a creation, and new rows have blank URLs and their message's owner |
| MigrationSafety.AttachmentStepSafe | aldar_middleware/migrations/data_migration_2_0.py:642-786 | whatever fails, migrating an attachment keeps every reference, owner and row |
| MigrationSafety.LinkSafe | aldar_middleware/migrations/data_migration_2_0.py:801-822 | one parent update between migrated messages keeps every reference, owner and row |
| MigrationImage.UserStepOnImage | aldar_middleware/migrations/data_migration_2_0.py:197-266 | on an image of a source with distinct keys a user step keeps the image and the id, succeeds without a fault exactly for users with an email, and leaves a known user's table unchanged |
| MigrationImage.SessionLookupOnImage | aldar_middleware/migrations/data_migration_2_0.py:330-365 | the duplicate check of a session finds the row with its own id and no other, and refreshing that row changes nothing |
| MigrationImage.SessionStepOnImage | aldar_middleware/migrations/data_migration_2_0.py:314-403 | a session step keeps the image and the id, succeeds without a fault exactly when its user is mapped, and is a no-op for a known session |
| MigrationImage.MessageLookupOnImage | aldar_middleware/migrations/data_migration_2_0.py:507-541 | the duplicate check of a message finds the row with its own id and no other, and refreshing that row changes nothing |
| MigrationImage.MessageStepOnImage | aldar_middleware/migrations/data_migration_2_0.py:452-593 | a message step keeps the image and the id, succeeds without a fault exactly when its session is mapped, and is a no-op for a known message |
| MigrationImage.AttachmentStepOnImage | aldar_middleware/migrations/data_migration_2_0.py:642-786 | an attachment step keeps the image, succeeds without a fault exactly when its message is mapped, and skips a known attachment without a change |
| MigrationLinks.ApplyLinksAt | aldar_middleware/migrations/data_migration_2_0.py:801-815 | the pass writes each message the parent of the last link for it and nothing else |
| MigrationLinks.RelinkingRecovers | aldar_middleware/migrations/data_migration_2_0.py:801-822 | a full pass after any prefix of a pass gives what an uninterrupted pass gives |
| MigrationLinks.LinksComeFromRows | aldar_middleware/migrations/data_migration_2_0.py:795-808 | the links are exactly those of rows whose message and previous message both migrated |
| MigrationLinks.ApplyLinksSafe | aldar_middleware/migrations/data_migration_2_0.py:801-822 | the whole pass keeps every reference, owner and row |
| MigrationLinks.LinksCompleteImage | aldar_middleware/migrations/data_migration_2_0.py:789-822 | a full pass over all migrated messages sets each parent to the source's previous message if it migrated, and to null otherwise |
| MigrationLinks.RelinkingFullImage | aldar_middleware/migrations/data_migration_2_0.py:789-822 | on a complete image any part of the pass changes nothing |
| MigrationAccounting.HandledUnlessFaulty | aldar_middleware/migrations/data_migration_2_0.py:642-786 | an attachment is handled only if its message migrated, and always then unless the database fails |
| MigrationAccounting.AttachmentAccounting | aldar_middleware/migrations/data_migration_2_0.py:615-633 | for every pattern of failures: `created` is the number of new rows, `updated` the number of rows whose URLs were blanked; a row is missing from the counters only if its message did not migrate or the database failed, and always if it did not migrate; the counters add up to the rows exactly when every row was handled, and without failures exactly when every row's message migrated |
| MigrationPipeline.TargetSession.MigrateUser | aldar_middleware/migrations/data_migration_2_0.py:190-266 | the inserting, reusing and rolling-back code is one user step, and nothing is left uncommitted |
| MigrationPipeline.TargetSession.MigrateSession | aldar_middleware/migrations/data_migration_2_0.py:314-403 | the same for a session step |
| MigrationPipeline.TargetSession.MigrateMessage | aldar_middleware/migrations/data_migration_2_0.py:452-593 | the same for a message step |
| MigrationPipeline.TargetSession.MigrateAttachment | aldar_middleware/migrations/data_migration_2_0.py:642-786 | the same for an attachment step with its outcome |
| MigrationPipeline.TargetSession.MigrateUsers | aldar_middleware/migrations/data_migration_2_0.py:1112-1124 | the loop goes through one user step for each row, everything committed, and its map holds the answers |
| MigrationPipeline.TargetSession.MigrateSessions | aldar_middleware/migrations/data_migration_2_0.py:269-311 | the same for the session loop |
| MigrationPipeline.TargetSession.MigrateMessages | aldar_middleware/migrations/data_migration_2_0.py:406-449 | the same for the message loop |
| MigrationPipeline.TargetSession.MigrateAttachments | aldar_middleware/migrations/data_migration_2_0.py:596-639 | the same for the attachment loop; each counter is exactly the number of rows with that outcome |
| MigrationPipeline.TargetSession.UpdateMessageParents | aldar_middleware/migrations/data_migration_2_0.py:789-822 | exactly the links of whole committed batches of 1000 persist after a failure, and all of them after success |
| MigrationRun.LinkPassSafe | aldar_middleware/migrations/data_migration_2_0.py:789-822 | however far the pass got, references and owners hold and no message appears or disappears |
| MigrationRun.RunKeepsImage | aldar_middleware/migrations/data_migration_2_0.py:1112-1145 | with any failures, a run on an image of the source leaves an image, keeps all ids, and blanks no attachment |
| MigrationRun.CleanRunMaps | aldar_middleware/migrations/data_migration_2_0.py:1112-1145 | without failures the three id maps hold exactly the rows that migrate |
| MigrationRun.CleanRunCompletes | aldar_middleware/migrations/data_migration_2_0.py:1112-1145 | without failures a run completes any partial image: every row is there with its id and its parent linked |
| MigrationRun.RerunChangesNothing | aldar_middleware/migrations/data_migration_2_0.py:197-230 | on the complete image a run inserts and changes nothing, failures or not |
| MigrationRun.ExecutionSafe | aldar_middleware/migrations/data_migration_2_0.py:1112-1145 | every execution from a consistent target, whatever fails, keeps references, owners and rows, its id maps land, and its counters tell the new and the blanked attachments |
| MigrationRun.ExecutionSafeThroughout | aldar_middleware/migrations/data_migration_2_0.py:1112-1145 | the same after every single row and link of the run, and the id map built so far lands |
| MigrationRun.ExecutionConverges | aldar_middleware/migrations/data_migration_2_0.py:1112-1145 | for a source with distinct keys every execution keeps the image and the ids, a clean one completes it, and on the full image none changes anything |
| MigrationRun.Migrate | aldar_middleware/migrations/data_migration_2_0.py:1112-1145 | the run is an execution recorded state by state, with all that follows: safety and landing maps always, image kept, completed and left alone under the stated conditions, exact counters; what its rows then hold is told by the column lemmas of `MigrationColumns` |
| MigrationForest.EdgePreserved | aldar_middleware/migrations/data_migration_2_0.py:789-822 | once parents are linked, one message is another's parent exactly when the source says so and both migrated |
| MigrationForest.PathsPreserved | aldar_middleware/migrations/data_migration_2_0.py:789-822 | the parent paths of the result are exactly the source's reply paths through migrated messages |
| MigrationForest.AcyclicStaysAcyclic | aldar_middleware/migrations/data_migration_2_0.py:495-588 | in a partial image of an acyclic source, which is what runs with distinct keys leave, there is no parent cycle |
| MigrationMerging.MergedReplyIsItsOwnParent | aldar_middleware/migrations/data_migration_2_0.py:507-541 | two messages that share a duplicate key, one replying to the other, become one row that is its own parent after the link pass |
| MigrationMerging.SelfParentIff | aldar_middleware/migrations/data_migration_2_0.py:801-815 | the pass makes a row its own parent exactly when the last source row linking it replies to a message merged into the same row |
| MigrationMerging.LastParentOfRows | aldar_middleware/migrations/data_migration_2_0.py:801-815 | the last link written for a row is read off the last source row that links it |
| MigrationMerging.ParentAfterPass | aldar_middleware/migrations/data_migration_2_0.py:801-822 | after the pass a row has the parent of its merged edge, or its old one if no source row links it |
| MigrationMerging.ParentCycleIff | aldar_middleware/migrations/data_migration_2_0.py:789-822 | in a table without parents the pass makes exactly the paths of the merged edges, so a cycle exactly when they have one |
| MigrationMerging.UnmergedStaysAcyclic | aldar_middleware/migrations/data_migration_2_0.py:789-822 | when no two messages share a row, an acyclic source stays acyclic |
| MigrationMerging.MergedIffKeysAgree | aldar_middleware/migrations/data_migration_2_0.py:505-541 | whatever fails, and if no two messages of the target had one key before the stage, two migrated messages share a target row exactly when they were looked up by the same key |
| MigrationMerging.RunCycleIff | aldar_middleware/migrations/data_migration_2_0.py:1127-1140 | a run into a target without parents leaves a parent cycle exactly when the merged edges of the source have one |
| MigrationMerging.DifferentKeysStayAcyclic | aldar_middleware/migrations/data_migration_2_0.py:1127-1140 | a run over messages with different keys merges nothing and leaves no cycle from an acyclic source |
| MigrationKeys.CleanStageMigratesIff | aldar_middleware/migrations/data_migration_2_0.py:406-449 | when nothing fails and the target does not use the ids, exactly the messages of migrated sessions migrate |
| MigrationKeys.MergedEdgeIff | aldar_middleware/migrations/data_migration_2_0.py:801-815 | the edges between target rows are those between the keys their messages are looked up by |
| MigrationKeys.RunCycleByKeysIff | aldar_middleware/migrations/data_migration_2_0.py:1127-1140 | whatever fails before, a run into a target without parents and with distinct keys leaves a parent cycle exactly when the keys of the migrated messages have one |
| MigrationKeys.CleanRunCycleIff | aldar_middleware/migrations/data_migration_2_0.py:1127-1140 | when nothing fails in the message stage either, exactly when the keys of the messages in migrated sessions have one, which the source tells |
| MigrationMerging.MergedRepliesFormACycle | aldar_middleware/migrations/data_migration_2_0.py:507-541 | three messages of an acyclic source, two of them with one key, become rows that are each other's parent after the link pass, though no reply joins two merged messages |
| MigrationRecognition.SessionForcedIff | aldar_middleware/migrations/data_migration_2_0.py:324-365 | a rerun's answer for a session is forced to be the first run's, whatever its lookup picks, exactly when the session has a graph id or a creation time and its row is the only match (or it is refused again) |
| MigrationRecognition.MessageForcedIff | aldar_middleware/migrations/data_migration_2_0.py:505-541 | the same for a message with a sent or creation time |
| MigrationRecognition.UserForcedIff | aldar_middleware/migrations/data_migration_2_0.py:197-230 | the same for a user and its email |
| MigrationForced.AnswersAgreeIff | aldar_middleware/migrations/data_migration_2_0.py:1112-1131 | all runs of a stage give the expected answers exactly when each answer is forced in the state the earlier ones lead to |
| MigrationRerun.RerunRebuildsIff | aldar_middleware/migrations/data_migration_2_0.py:1112-1131 | clean reruns on a run's own output rebuild its three id maps, whatever rows their lookups pick, exactly when every row is recognised |
| MigrationRerun.RecognisedRerunRebuilds | aldar_middleware/migrations/data_migration_2_0.py:1112-1131 | when every row is recognised a rerun rebuilds the maps, leaves the users alone, and sessions and messages come out as the answers of the first run replayed |
| MigrationSteady.ReplayLeavesOutput | aldar_middleware/migrations/data_migration_2_0.py:344-365 | replaying a run's own answers on its own output changes no session and no message, although merged rows were refreshed several times |
| MigrationSteady.LinkPassKeepsIff | aldar_middleware/migrations/data_migration_2_0.py:801-822 | a full link pass leaves a table as it is exactly when every linked row has the parent the source tells |
| MigrationSteady.AttachmentsKeepIff | aldar_middleware/migrations/data_migration_2_0.py:596-786 | a clean attachment stage leaves the table alone, whatever its lookups find, exactly when each linked attachment's own row, or else every row of its file, of which there is one, has blank URLs |
| MigrationSteady.RecognisedRerunKeepsConversations | aldar_middleware/migrations/data_migration_2_0.py:1112-1145 | when every row is recognised and the parents are those the source tells, a rerun leaves users, sessions, messages and parents as they are, and settled attachments too |
| MigrationSteady.RerunLeavesAllIff | aldar_middleware/migrations/data_migration_2_0.py:1112-1145 | clean reruns on any run's output rebuild its maps and change no table, whatever rows their lookups pick, exactly when every row is recognised, the parents are those the source tells (as they are after a link pass that succeeded) and every linked attachment is settled |
| MigrationRerun.KeyedSessionMayBeTakenForAnother | aldar_middleware/migrations/data_migration_2_0.py:330-365 | two keyed sessions, both in the target: the first's lookup may answer the second and set it back to active |
| MigrationRerun.UnkeyedSessionTakesItsRows | aldar_middleware/migrations/data_migration_2_0.py:324-403 | a session without a key whose row is in the target drops out of a rerun's map, its messages out of theirs, and their attachments are not handled |
| MigrationRerun.UnkeyedMessageTakesItsRows | aldar_middleware/migrations/data_migration_2_0.py:505-593 | a message without a key whose row is in the target drops out of a rerun's map, and its attachments are not handled |
| MigrationBystanders.BystandersStand | aldar_middleware/migrations/data_migration_2_0.py:1112-1145 | target rows that no source row can be looked up by are neither read nor written: the run is an execution on the rest of the target and leaves them as they are |
| MigrationBystanders.ConvergesBesideBystanders | aldar_middleware/migrations/data_migration_2_0.py:1112-1145 | convergence and the no-op rerun hold beside such rows |
| MigrationForest.InterruptedPassRecovers | aldar_middleware/migrations/data_migration_2_0.py:801-822 | after a failure at update k exactly the first 1000 * floor(k / 1000) links persist, and a later full pass reaches the uninterrupted result |
| MigrationColumns.UserColumns | aldar_middleware/migrations/data_migration_2_0.py:197-266 | after any run, whatever failed, a known user's row is as it was, a new one has email, username and profile of the source user whose id it bears, and every mapped source user has a non-empty email, that of its row |
| MigrationColumns.SessionColumns | aldar_middleware/migrations/data_migration_2_0.py:324-399 | after any run a session's row is as it was when no source row was mapped to it; otherwise the last one mapped to it decides: name "Untitled Chat" for an empty name, status "active" or "archived" by its deletion time, the default agent. Every mapped one has its mapped user and its graph id or creation time, and a new row the other columns of the source row whose id it bears |
| MigrationColumns.MessageColumns | aldar_middleware/migrations/data_migration_2_0.py:500-588 | after any run a message's row is as it was but for its parent when no source row was mapped to it; otherwise the last one mapped to it decides: role "assistant" for a reply, "user" if not. Every mapped one has its session, text and sending time, and a new row the other columns of the source row whose id it bears |
| MigrationColumns.AttachmentColumns | aldar_middleware/migrations/data_migration_2_0.py:700-786 | after any run a new attachment has its source row's file name, its message in both columns, empty URLs, and is active exactly when the source row is not deleted; every handled one has a row of its id or file without URLs |
| MigrationColumns.NoSecondRow | aldar_middleware/migrations/data_migration_2_0.py:197-786 | whatever fails, a run adds no row beside another of the same email or username, of the same graph id of one user, of the same text and time in one session, or of the same file of one message |
| MigrationColumns.ImageOfUser | aldar_middleware/migrations/data_migration_2_0.py:233-257 | the full image has a row with email, username and profile for every user with an email |
| MigrationColumns.ImageOfSession | aldar_middleware/migrations/data_migration_2_0.py:324-399 | ... for every session of such a user, with its columns, its name or "Untitled Chat", and "active" exactly when not deleted |
| MigrationColumns.ImageOfMessage | aldar_middleware/migrations/data_migration_2_0.py:500-588 | ... for every message of such a session, with its columns; its role is "assistant" exactly when it is a reply |
| MigrationColumns.ImageOfAttachment | aldar_middleware/migrations/data_migration_2_0.py:700-786 | ... and for every attachment of such a message, active exactly when not deleted |
| MigrationColumns.ImageHoldsNothingElse | aldar_middleware/migrations/data_migration_2_0.py:197-786 | an image, partial or full, holds only rows of such source rows, and its assistant rows are exactly the replies |
| OboCache.EntriesWereStored | aldar_middleware/auth/obo_utils.py:78-181 | over every history with every Redis fault, an entry in either tier was stored under its key |
| OboCache.ReturnedTokenIsSafe | aldar_middleware/auth/obo_utils.py:45-149 | a returned token was stored under this key, less than 42900 s ago, and is more than 300 s before its recorded expiry and its own `exp` |
| OboCache.LookupAsksRedisThenMemory | aldar_middleware/auth/obo_utils.py:78-109 | in any state a lookup gives the token in Redis if it can be read and answers, else the one in memory if it answers, else none; what does not answer is dropped from the tiers asked |
| OboCache.FailedReadAnswersFromMemory | aldar_middleware/auth/obo_utils.py:78-109 | when Redis cannot be read the memory entry answers exactly while it is more than 300 s before both its expiries, whatever Redis holds |
| OboCache.CacheRefinesOneMap | aldar_middleware/auth/obo_utils.py:78-181 | without faults the tier in use holds the last stored token or nothing once that expired, and the other tier is empty |
| OboCache.AnswerIsExpected | aldar_middleware/auth/obo_utils.py:78-165 | without faults a lookup gives the last stored token not cleared and not expired |
| OboCache.FaultlessAnswerIff | aldar_middleware/auth/obo_utils.py:78-149 | without faults a lookup gives a token exactly when it was stored last for the key, was not cleared since, and is more than 300 s before the end of its lifetime (43200 s when none is given, never more) and before its own expiry |
| OboCache.OutageAnswerIff | aldar_middleware/auth/obo_utils.py:78-149 | the same when every Redis call of the history fails |
| OboCache.DefaultWindow | aldar_middleware/auth/obo_utils.py:111-149 | a token without a lifetime and without an expiry of its own answers for 42900 s after its store and no longer, with Redis up or down |
| OboCache.ExchangesInOutage | aldar_middleware/auth/obo_utils.py:477-523 | with Redis down, too, the provider is asked exactly when no non-empty stored token answers, and otherwise that token comes back |
| OboCache.ExchangeStoresReply | aldar_middleware/auth/obo_utils.py:477-523 | after an exchange, with Redis up or down, exactly the provider's token answers while it lives, and the next exchange asks again only afterwards |
| OboCache.ClearedAnswersIff | aldar_middleware/auth/obo_utils.py:151-181 | after a clearing that Redis missed, a lookup gives exactly the live token Redis still holds |
| OboCache.StoreLeavesMemoryEmptyIff | aldar_middleware/auth/obo_utils.py:111-149 | with Redis up, a store leaves the memory tier empty exactly when its lifetime is not negative |
| OboCache.StoreDecidesIff | aldar_middleware/auth/obo_utils.py:111-149 | in every state, whatever earlier faults left, a stored token decides all later answers exactly when no older one comes back: without Redis always; a negative lifetime must find no live token in Redis; any other must outlast the entry that memory still holds for the key, unless that has expired |
| OboCache.FaultlessStoreDecidesIff | aldar_middleware/auth/obo_utils.py:111-149 | after a run without faults this comes down to the lifetime not being negative or Redis holding no live token |
| OboCache.OlderTokenComesBack | aldar_middleware/auth/obo_utils.py:130-143 | two stores, the first with a write fault: the second token answers while it lasts, then the first one again |
| OboCache.ExchangesOnlyWhenNeeded | aldar_middleware/auth/obo_utils.py:477-523 | without faults the provider is asked exactly when no live non-empty token is stored |
| OboCache.UntouchedKeepsLastStored | aldar_middleware/auth/obo_utils.py:111-165 | operations on other keys leave a key's last stored token |
| OboCache.OneExchangePerWindow | aldar_middleware/auth/obo_utils.py:477-523 | after one exchange the provider is not asked again exactly while the token's window lasts, and the same token comes back |
| OboCache.OboTokenCache.Lookup | aldar_middleware/auth/obo_utils.py:78-109 | a lookup over the two tiers is the specified state change and answer, faults included |
| OboCache.OboTokenCache.Store | aldar_middleware/auth/obo_utils.py:111-149 | the same for a store |
| OboCache.OboTokenCache.ClearOne | aldar_middleware/auth/obo_utils.py:151-165 | the same for clearing one key |
| OboCache.OboTokenCache.Clear | aldar_middleware/auth/obo_utils.py:167-181 | the same for clearing everything |
| OboCache.OboTokenCache.Exchange | aldar_middleware/auth/obo_utils.py:477-523 | look up, else exchange and store: the specified state, token and number of provider calls |
| TokenBlacklist.ExpiriesStayInsideTokens | aldar_middleware/auth/token_blacklist.py:17-74 | in every history the tokens with an expiry are blacklisted tokens, and no zero expiry is kept |
| TokenBlacklist.StateMatchesRecord | aldar_middleware/auth/token_blacklist.py:17-74 | the stored state agrees with what was said about a token, or the token is past its expiry and already gone |
| TokenBlacklist.AnswerIsRecord | aldar_middleware/auth/token_blacklist.py:32-51 | a token is blacklisted exactly when it was added since the last clear and is not strictly past its last recorded expiry |
| TokenBlacklist.AnswerIff | aldar_middleware/auth/token_blacklist.py:32-51 | in a disciplined history a token is blacklisted exactly when it was added since the last clear and the clock is not past the last expiry given for it since |
| TokenBlacklist.PurgesAreInvisible | aldar_middleware/auth/token_blacklist.py:53-67 | leaving all purges out of a history changes no later answer |
| TokenBlacklist.InsertedPurgeIsInvisible | aldar_middleware/auth/token_blacklist.py:53-67 | inserting a purge anywhere changes no later answer |
| TokenBlacklist.PurgesLeaveDiscipline | aldar_middleware/auth/token_blacklist.py:53-67 | a disciplined history stays disciplined without its purges |
| TokenBlacklist.ReAddingHidesPurgeIff | aldar_middleware/auth/token_blacklist.py:17-67 | the discipline is exact: adding a token again without an expiry answers alike purged and not purged exactly when it was not past its expiry |
| TokenBlacklist.Blacklist.BlacklistToken | aldar_middleware/auth/token_blacklist.py:17-30 | the new state of the set and the dictionary |
| TokenBlacklist.Blacklist.Check | aldar_middleware/auth/token_blacklist.py:32-51 | the answer, and the token dropped from both when past its expiry |
| TokenBlacklist.Blacklist.RemoveExpiredTokens | aldar_middleware/auth/token_blacklist.py:53-67 | collecting and then deleting removes exactly the tokens past their expiry |
| TokenBlacklist.Blacklist.GetStats | aldar_middleware/auth/token_blacklist.py:76-88 | counts what remains after a purge, and active tokens are among all tokens |
| Base64Url.EncodeLength | aldar_middleware/auth/obo_utils.py:562-566 | an encoded part has length 0, 2 or 3 modulo 4, by the number of bytes modulo 3 |
| Base64Url.EncodeSpellsBytes | aldar_middleware/auth/obo_utils.py:562-566 | an encoded part spells every three bytes, read as one number, by four digits of the URL-safe alphabet, and one or two last bytes by two or three (section 5 of RFC 4648) |
| Base64Url.ScanEncoded | aldar_middleware/auth/obo_utils.py:562-566 | decoding encoded bytes with at least the needed padding gives the bytes |
| Base64Url.PaddingInvertsEncode | aldar_middleware/auth/obo_utils.py:551-571 | the code's padding rule and the library's both invert unpadded base64url for every byte sequence |
| Base64Url.ScanMorePadding | aldar_middleware/auth/obo_utils.py:562-566 | surplus padding after a decodable text changes nothing |
| Base64Url.CodePaddingExtendsLibrary | aldar_middleware/auth/obo_utils.py:562-566 | every text the library can decode, the code decodes to the same bytes |
| McpToken.SplitAtDot | aldar_middleware/auth/obo_utils.py:551-571 | splitting at a dot gives the part before it and the split of the rest |
| McpToken.MintedTokenSplits | aldar_middleware/auth/obo_utils.py:871-876 | an encoded token splits into exactly header, payload and signature |
| McpToken.DecodeInvertsEncode | aldar_middleware/auth/obo_utils.py:551-571 | unverified decoding of an encoded token gives its claims |
| McpToken.VerifyAcceptsMinted | aldar_middleware/auth/obo_utils.py:878-884 | verification of a minted token succeeds exactly between its issue and its expiry and with a subject, and says what is wrong otherwise |
| McpToken.VerifiedClaimsAreThePayload | aldar_middleware/auth/obo_utils.py:986-1005 | verified claims are those the unverified decoding reads |
| McpToken.ExtractionIgnoresVerification | aldar_middleware/auth/obo_utils.py:986-1013 | on three-part tokens the switch, the clock and the secret change no extraction |
| McpToken.MintedOboTokenComesBack | aldar_middleware/auth/obo_utils.py:826-905 | extraction from a minted token gives the embedded token exactly when it is not empty, verified or not, expired or not |
| McpToken.MintedTokenLifetime | aldar_middleware/auth/obo_utils.py:841-851 | corollary of the minted claims: a minted token outlives neither 12 hours nor the user token's stated expiry, and takes that expiry exactly when within 12 hours |
| McpToken.MintedClaimsComeBack | aldar_middleware/auth/obo_utils.py:826-876 | the claims read back from a minted token: subject from sub, oid or appid; email from four claims in order or "unknown@example.com"; issue time the user token's or now; expiry one hour from now, or the user token's but at most 12 hours from now; issuer, OBO and ARIA token as given |
| TokenValidation.AzureADAuth.DecodeWithRetries | aldar_middleware/auth/azure_ad.py:456-590 | the retry tree succeeds exactly for an RS256 token signed under a key of the ladder with the required claims in time and one of the two issuers; at most two key refreshes |
| TokenValidation.AzureADAuth.ValidateToken | aldar_middleware/auth/azure_ad.py:420-622 | a token is accepted exactly when acceptable, the claims returned are its own, at most two refreshes, and the last client stays |
| TokenValidation.AcceptableMeaning | aldar_middleware/auth/azure_ad.py:456-622 | what an accepted token must be, claim by claim: a signing key found, one of two issuers, one of the four audiences written out, a subject, and the three times in order; exactly those are accepted |
| TokenValidation.FourAudiences | aldar_middleware/auth/azure_ad.py:591-612 | a token good in every other respect is accepted for the client id, api://client id, client id/.default and https://graph.microsoft.com, and for no other audience |
| TokenValidation.AcceptedIffServedOrCached | aldar_middleware/auth/azure_ad.py:456-622 | corollary of ValidateToken: with one served key set: accepted exactly when claims are good and the signature is under a served or still cached key |
| TokenValidation.StalenessNeverRejects | aldar_middleware/auth/azure_ad.py:456-622 | corollary of ValidateToken: a token valid under the served keys is accepted whatever was cached |
| TokenValidation.CacheMattersIff | aldar_middleware/auth/azure_ad.py:456-500 | corollary of ValidateToken: the cache makes a difference exactly for tokens of a cached key that is no longer served |
| UserAgents.GrantedAreGrants | aldar_middleware/admin/routes.py:1037-1050 | the access query keeps exactly the chosen users' active accesses to live agents |
| UserAgents.LiveByNameHolds | aldar_middleware/admin/routes.py:1079-1090 | the name table holds a live agent of each live agent's name |
| UserAgents.GroupLoop | aldar_middleware/admin/routes.py:1092-1114 | the group loop extends the list by exactly the agents reached and never repeats a listed one |
| UserAgents.AgentsOfIff | aldar_middleware/admin/routes.py:1037-1115 | an agent is listed exactly when the user has active access to it while live, or shares a group with its pivot row naming a live agent; group entries never repeat |
| UserAgents.AgentsOfMeaning | aldar_middleware/admin/routes.py:1037-1115 | the same in terms of the tables: an active access row of the user, or one group string in both the agent's and the user's pivot row, to an agent neither deleted nor without a status, draft or inactive |
| UserAgents.PageMeaning | aldar_middleware/admin/routes.py:590-640 | the page lists the same, for a user without an email the direct accesses alone |
| UserAgents.GrantedInOrder | aldar_middleware/admin/routes.py:1037-1050 | the access query gives each active row of a chosen user to an agent on offer once, in the order of the table |
| UserAgents.AgentsOfEntries | aldar_middleware/admin/routes.py:1053-1115 | every entry's level, flag and thumbnail: direct ones as granted and in order, group ones read-only and live |
| UserAgents.PageQuerySplits | aldar_middleware/admin/routes.py:510-534 | one user's share of the page query is that user's own query, in the same order |
| UserAgents.CachedIconsSuffice | aldar_middleware/admin/routes.py:558-589 | icons resolved up front give the list that resolving one by one gives |
| UserAgents.CollectAgents | aldar_middleware/admin/routes.py:1053-1115 | the loop with its seen-set computes the specified list |
| UserAgents.GetUser | aldar_middleware/admin/routes.py:1037-1115 | the one-user endpoint gives the user's agents, exactly those a direct access or a shared group grants |
| UserAgents.GroupByUser | aldar_middleware/admin/routes.py:529-534 | grouping keeps each user's accesses in order |
| UserAgents.GroupsByEmail | aldar_middleware/admin/routes.py:536-556 | every looked-up email gets its pivot row's groups, or none |
| UserAgents.ResolveIcons | aldar_middleware/admin/routes.py:558-587 | the batch cache agrees with single resolution on every agent of the page |
| UserAgents.ListUsers | aldar_middleware/admin/routes.py:510-640 | every user on the page with an email gets exactly the one-user list, which has an agent exactly when a direct access or a shared group grants it; without an email only direct access does |
| UserGroups.MemberRowsOnce | aldar_middleware/admin/routes.py:1298-1310 | the first loop lists exactly the active memberships' active groups, each once |
| UserGroups.AddRowsOnce | aldar_middleware/admin/routes.py:1316-1333 | the second adds every matching group row not listed yet, and no row twice |
| UserGroups.AddPlaceholdersOnce | aldar_middleware/admin/routes.py:1394-1408 | the third adds every AD group not listed yet, and none twice |
| UserGroups.PlaceholderHasNoRow | aldar_middleware/admin/routes.py:1316-1408 | an AD group left for the third loop has no active group row |
| UserGroups.MergedExactlyOnce | aldar_middleware/admin/routes.py:1298-1408 | every active membership group and every AD group of the user is listed, none twice, and nothing else |
| UserGroups.MergeGroups | aldar_middleware/admin/routes.py:1298-1408 | the loops with their two seen-sets compute the merged list |
| UserGroups.PagesTile | aldar_middleware/admin/routes.py:1421-1425 | the first k pages are the list's first k * limit items |
| UserGroups.PageMeaning | aldar_middleware/admin/routes.py:1411-1441 | any offset: the page holds the list's items from the offset on, as many as the limit allows, the total is the list's length, and page and page count enclose offset and length |
| UserGroups.PagesReproduceTheList | aldar_middleware/admin/routes.py:1411-1441 | reading the reported number of pages gives the list; all pages but the last are full, the last is not empty, page k says k |
| AdSync.BeforeAt | aldar_middleware/admin/routes.py:2268-2269 | the user name is the longest front of the email without an @ sign |
| AdSync.FinalSnoc | aldar_middleware/admin/routes.py:2273-2281 | one more fetched row of the same id overwrites the net effect of the earlier ones |
| AdSync.UpsertedReflects | aldar_middleware/admin/routes.py:2240-2319 | overwriting row by row gives every row its net effect, one new row for each id that had none, and touches nothing else |
| AdSync.SyncYieldsTheSpecifiedTable | aldar_middleware/admin/routes.py:2232-2360 | without row errors the overwriting sync yields exactly the specified table, existing rows and new rows |
| AdSync.SyncedRowMeaning | aldar_middleware/admin/routes.py:2232-2360 | no Azure id: untouched; not fetched: inactive; fetched: status and email of the last occurrence |
| AdSync.LatestIsLast | aldar_middleware/admin/routes.py:2240-2281 | the deciding row is the last one of its id with an email |
| AdSync.SecondSyncChangesNothing | aldar_middleware/admin/routes.py:2232-2360 | a second identical sync changes nothing |
| AdSync.NoNewIds | aldar_middleware/admin/routes.py:2254-2310 | a table that covers the fetched ids gets no new row |
| AdSync.WithoutOverwriteRowsStay | aldar_middleware/admin/routes.py:2273-2334 | without the overwrite option no existing row changes, whatever fails |
| AdSync.UnknownUsersAreAppended | aldar_middleware/admin/routes.py:2240-2310 | without the overwrite option, whatever rows fail: the old table followed by one row for each unknown id, made of the first row of that id that has an address, a readable name and no database error, in the order fetched; email, username, names and status are that row's |
| AdSync.NoSecondRow | aldar_middleware/admin/routes.py:2254-2310 | ... so no id has two rows, and every id that took effect has one |
| AdSync.SyncedRowInFetchedTerms | aldar_middleware/admin/routes.py:2232-2360 | with the option, whatever rows fail: a user not fetched with an address is inactive, one whose rows all failed stays, any other has email, username and status of its last row that took effect and the last non-empty names |
| AdSync.SyncedNewRowsInFetchedTerms | aldar_middleware/admin/routes.py:2232-2360 | ... new rows likewise, no id twice, every id that took effect present, and users without an Azure id untouched |
| AdSync.JoinedWordsSplit | aldar_middleware/admin/routes.py:2262-2266 | a last name made of several words gives these words back |
| AdSync.FailuresCount | aldar_middleware/admin/routes.py:2236-2331 | the failed rows are exactly those that take no effect |
| AdSync.Directory.UpsertAll | aldar_middleware/admin/routes.py:2232-2331 | the loop's table and seen ids; successful + failed = fetched and failed counts the rows without an email or with an error |
| AdSync.Directory.DeactivateUnseen | aldar_middleware/admin/routes.py:2333-2360 | deactivates exactly the users with an Azure id that was not seen |
| AdSync.Directory.Sync | aldar_middleware/admin/routes.py:2232-2360 | both together, and the counters; without the overwrite option exactly the unknown users are appended |
| RunGrouping.GroupIsASlice | aldar_middleware/migrations/data_migration_data_2_0.py:53-79 | group r is the slice of messages 2r-1 and 2r |
| RunGrouping.RunsPartitionConversation | aldar_middleware/migrations/data_migration_data_2_0.py:42-79 | the runs put end to end are the conversation; ceil(n / 2) runs of two messages, only the last may have one |
| RunGrouping.RunShowsBothIff | aldar_middleware/migrations/data_migration_data_2_0.py:76-77 | a run of two shows an input and an output exactly when its messages differ in role, and then they are those messages' texts |
| RunGrouping.RunTexts | aldar_middleware/migrations/data_migration_data_2_0.py:67-77 | for any total order of texts, a run's input is the least text of its user messages and its output the greatest of its replies, each null exactly when there is none |
| RunGrouping.AlternatingRunsAreExchanges | aldar_middleware/migrations/data_migration_data_2_0.py:56-113 | in an alternating conversation every run carries its own question and reply, and a last question without a reply its own input and no output |
| RunGrouping.ReconciledRows | aldar_middleware/migrations/data_migration_data_2_0.py:216-302 | each source row decides its own session and no other session changes |
| RunGrouping.ReconciledIsUpToDate | aldar_middleware/migrations/data_migration_data_2_0.py:216-302 | afterwards agent, agent data and runs equal the source in every session |
| RunGrouping.ReconciledColumns | aldar_middleware/migrations/data_migration_data_2_0.py:137-163 | column by column: a new session is the source row; a known one keeps user and creation time and takes session data and update time unless agent, agent data and runs were equal |
| RunGrouping.SourceRowsIff | aldar_middleware/migrations/data_migration_data_2_0.py:42-118 | the query gives exactly the conversations with a user and a message, each with that user, the fixed agent, its times and its runs |
| RunGrouping.RerunCounts | aldar_middleware/migrations/data_migration_data_2_0.py:249-290 | a rerun inserts nothing and skips exactly the rows whose run ids came out the same |
| RunGrouping.QueriedAgain | aldar_middleware/migrations/data_migration_data_2_0.py:42-117 | two executions of the query give rows equal but for run ids, each row with at least one run, the first under its generated id |
| RunGrouping.RunsDifferOnlyInIds | aldar_middleware/migrations/data_migration_data_2_0.py:94-113 | two executions build the same runs of a conversation exactly when they generate the same ids |
| RunGrouping.OneRowForEachConversation | aldar_middleware/migrations/data_migration_data_2_0.py:54-118 | the query gives one row for each conversation with a user and a message |
| RunGrouping.FreshIdsSkipNothing | aldar_middleware/migrations/data_migration_data_2_0.py:94-97 | a rerun of the source query with freshly generated run ids skips no session and inserts none |
| RunGrouping.RerunChangesOnlyRunIds | aldar_middleware/migrations/data_migration_data_2_0.py:216-302 | a rerun of the source query keeps the sessions and changes nothing compared in them but run ids |
| RunGrouping.SessionTable.MigrateData | aldar_middleware/migrations/data_migration_data_2_0.py:211-302 | the loop yields the reconciled table; inserted + updated + skipped = rows, each counter exact |
| AttachmentRepair.RepairedIsFinal | aldar_middleware/migrations/fix_attachment_linkage.py:80-189 | after its repair an attachment has an issue exactly when it had one without a candidate, and is not repairable again |
| AttachmentRepair.RepairMeaning | aldar_middleware/migrations/fix_attachment_linkage.py:46-179 | in message times and ids: an active message attachment without its message moves to a user message of its user, one on another role's message to a user message of that session, less than 5 s away and none nearer; message and entity id become that message's and nothing else changes; without such a message the row stays |
| AttachmentRepair.SecondPassChangesNothing | aldar_middleware/migrations/fix_attachment_linkage.py:80-189 | a second pass leaves every attachment as it is |
| AttachmentRepair.RemainingIssues | aldar_middleware/migrations/fix_attachment_linkage.py:197-229 | the issues that remain are those found less those fixed, and none is repairable |
| AttachmentRepair.Database.FindNearest | aldar_middleware/migrations/fix_attachment_linkage.py:99-158 | a nearest eligible user message within five seconds, or none when there is none |
| AttachmentRepair.Database.FixOne | aldar_middleware/migrations/fix_attachment_linkage.py:80-179 | one attachment is repaired and no other changes; the two flags are exact |
| AttachmentRepair.Database.FixOrphanedAttachments | aldar_middleware/migrations/fix_attachment_linkage.py:46-194 | a pass repairs every checked attachment and counts exactly; an error at row i leaves exactly the rows before it repaired, the others untouched, and reports zero |
| AttachmentRepair.ReportedZeroIff | aldar_middleware/migrations/fix_attachment_linkage.py:191-194 | the rows changed before the error are the repairable ones before it, and the reported zero is their number exactly when there are none |
| AttachmentRepair.ErrorHidesAFix | aldar_middleware/migrations/fix_attachment_linkage.py:191-194 | one orphan fixed and committed, then an error: zero is reported |
| AttachmentRepair.Database.VerifyAttachments | aldar_middleware/migrations/fix_attachment_linkage.py:197-229 | the verifier's two counts are disjoint and together the number of issues |
| AttachmentRepair.Database.FixAndVerify | aldar_middleware/migrations/fix_attachment_linkage.py:261-271 | found is the number of issues before, fixed that of the repairable ones, and the verifier's total afterwards is the number of issues left, found minus fixed |
| OpenApiFilter.PublishedIff | aldar_middleware/application.py:225-281 | corollary of CustomOpenApi: an operation is published exactly when it has no hidden tag, a path goes exactly when it had entries and all were hidden, bearer on exactly the non-public /api and /admin paths |
| OpenApiFilter.PublishedMeaning | aldar_middleware/application.py:225-281 | entry by entry, in tags and path prefixes: published without a hidden tag, a path kept with one visible entry, no security on a public path, bearer on any other path under /api or /admin, the rest unchanged |
| OpenApiFilter.CountingFindsAllHidden | aldar_middleware/application.py:238-244 | comparing counts decides whether all entries of a path are hidden |
| OpenApiFilter.Application.CollectRemovals | aldar_middleware/application.py:225-244 | the collected removals are exactly the hidden operations, whole paths apart |
| OpenApiFilter.Application.RemoveCollected | aldar_middleware/application.py:246-255 | deleting the collected removals leaves every other entry |
| OpenApiFilter.Application.CustomOpenApi | aldar_middleware/application.py:204-303 | collect-then-delete equals the one-pass filter, and later calls return the first result |
| UsageBackfill.Eligible | scripts/migrate_historical_usage_to_metrics.py:65-83 | keeps exactly the undeleted user messages with an agent from the start date on |
| UsageBackfill.Batch | scripts/migrate_historical_usage_to_metrics.py:65-83 | LIMIT and OFFSET give the messages from the offset on, as many as the limit and the table allow |
| UsageBackfill.MetricsInOrder | scripts/migrate_historical_usage_to_metrics.py:86-112 | without failures message i gives metric i with its own timestamp |
| UsageBackfill.MetricsRecorded | scripts/migrate_historical_usage_to_metrics.py:65-203 | with any failures: the metrics are, in order, those of exactly the undeleted user messages with an agent from the date on that do not fail, each with its own id, agent and time |
| UsageBackfill.MigrateBatch | scripts/migrate_historical_usage_to_metrics.py:172-203 | a batch adds the metrics of its messages; migrated + errors = batch size |
| UsageBackfill.MigrateHistoricalData | scripts/migrate_historical_usage_to_metrics.py:115-203 | for every positive batch size the loop ends, visits each eligible message once and in order, and migrated + errors = total |

## Left out

- MigrationPipeline.TargetSession.UpdateMessageParents: a duplicate update of one message counts as one update, as in the code; how many rows the database reports as changed is not modelled.
- MigrationSafety.AttachmentStepSafe: copying blobs between the two storage accounts is not modelled; the code blanks the URLs in every case.
- McpToken.ExtractionIgnoresVerification: tokens with other than three parts are not covered, because the library and the code split those differently.
- McpToken.MintedOboTokenComesBack: the user token's claims are a parameter, and a claim that is present but empty counts as absent, also for `unique_name`.
- AdSync.Directory.Sync: a row error leaves that row's user alone; the database session's own state after a failed flush is not modelled, nor is a failure of the final deactivation query.
- RunGrouping.RunsPartitionConversation: messages of equal time are taken in the order the row numbers gave them, which the database may choose differently inside a run.
- UserAgents.ListUsers: a user without an email address is listed without group agents, whereas the one-user endpoint asks the pivot service, which is not part of this model, about the empty address.
- OpenApiFilter.Application.CustomOpenApi: the order of the tag list and path entries that are not operations are not modelled beyond having no tags.
- `updated_at` columns, which every reuse of a row writes.
- Starter prompts and configurations, the last two migration steps: single-table copies without references.
- Source rows without an id: every stage passes over them, so the source tables hold rows with an id only.
- Database session state after a failed flush: a failing row has no effect beyond its rollback.
- `update_existing_sessions.py`: the same grouping query and the same compare-and-write loop as the modelled reconciliation, without inserts.
- `exchange_token_aria`: the same cache under keys with a prefix; and the exchange services' own MSAL and audience checks, which are the provider's answer here.
- `get_user_groups` in `azure_ad.py`: following Graph's page links.
- The wording of validation errors. When both issuers fail, the message a caller sees is that of a later check; the model only keeps that the token is rejected. The handler for a v1 signature failure cannot be reached after a v2 decoding got past the signature.
- Group synchronisation and the background variant of the directory sync.
- Display names and temporary UUIDs of AD groups, profile photos, names and preferences of users, search and sort clauses.
- A thumbnail resolver that raises: resolution is a function of the icon.
- The dry-run mode of the usage back-fill, and the commit per batch.
- A failed first query of the attachment stage: `migrate_attachments` then returns nothing and `main` stops with an error before the optional steps.
- Connections, logging, progress output, HTTP, Graph, MSAL and Redis internals.
