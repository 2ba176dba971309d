# Verified model of the Open Community Groups server

A Dafny model of the parts of Open Community Groups whose correctness spans several functions or a
whole run, with machine-checked proofs of what those parts guarantee. `dafny verify dfyconfig.toml`
checks the whole project.

| component | files |
|---|---|
| Content-hashed asset pipeline of the build script | `Strings`, `Sorting`, `AssetRewrite`, `AssetNaming`, `AssetGraph`, `AssetWriter`, `AssetTheorems`, `AssetOrder`, `AssetBuild` |
| Activity tracker: queue, aggregator, batch channel, flusher | `ActivityBatches`, `ActivityPipeline` |
| Transactions, leaving an event, attending and checking out | `UnitOfWork`, `LeaveEvent`, `Checkout` |
| External logins and the selected community and group | `Identity`, `SessionSelection` |
| Redirector | `Redirector` |

`Wrappers` holds the option and result types all of them share.

Form: code that updates state is a class or a looping method proved against a specification function
or an outright property; code that computes a value is a function with lemmas about it; the two worker
tasks of the activity tracker are a step system in which every interleaving is a run. The outside
world (file operations, database replies, payment provider, clock) is a parameter that may answer in
any way.

## Where the code falls short of the property one would like

The model keeps the code as it is. Each of these has its exact condition and a failing input.

- Rewriting is by raw substring, so a reference whose hashed path contains another plain path is
  corrupted. Unless references straddle each other this is the only way to fail
  (`AssetNaming.SequentialIsSimultaneousIff`); below one root it takes a plain path that is a prefix of the
  hashed path (`AssetNaming.RootedIff`). Any asset with its source map beside it is such a pair, whatever
  the hashes (`AssetNaming.SourceMapReferenceIsCorrupted`, `AssetNaming.SourceMapWitness`).
- Dependencies are recorded for delimited references only, yet an undelimited mention is rewritten too
  when the mentioned asset is already final. The build visits the assets in the sorted order of their
  paths, so whether such a mention is rewritten depends on how the files are called: visited after the
  mentioned asset a text is rewritten, visited before it is left alone
  (`AssetTheorems.UnrecordedMentionMakesOrderMatter`). All visiting orders write the same texts if and
  only if the longest path that wins at each position is one the asset reaches
  (`AssetOrder.OrderIndependentIff`).
- Two file names can share a hashed name when one of them ends in a dot; `AssetNaming.CollisionIff` lists
  exactly those shapes, `a` and `a.` among them (`AssetNaming.CollisionWitness`).
- After a shutdown the tables miss what was tracked after the drain saw an empty queue, what a failed or
  filtered update, a final batch nobody takes or the flusher's death threw away, and the multiples of 2^32
  that a wrapped total dropped (`ActivityPipeline.ShutdownIsExactIff`, `ActivityPipeline.LateTrackWitness`).
- A callback that swallows a statement error still gets `Ok` from `transaction`, because PostgreSQL
  answers a commit in an aborted transaction with success and a rollback
  (`UnitOfWork.DoneMeansCommitted`, `UnitOfWork.SwallowedErrorWitness`). A callback that propagates errors
  is safe (`UnitOfWork.DoneMeansDurable`).
- A request that is abandoned while `begin` is under way, or without a runtime to spawn the rollback on,
  and a refused rollback leave the client inside a transaction when it goes back to the pool
  (`UnitOfWork.GoesBackFreshIff`); the next transaction on that client then commits the leftovers
  (`UnitOfWork.StrandedEffectsLeak`, `UnitOfWork.StrandedWitness`).
- An external login with Linux Foundation metadata but no complete issuer and subject pair overwrites the
  identity of the registered user it matches by email (`Identity.LoginKeepsIdentitiesIff`,
  `Identity.OverwriteWitness`). The two login flows never build such metadata (`Identity.LoginsNeverRelink`).
- A login that finds a community but no group keeps a group selected earlier, even from another
  community (`SessionSelection.LogInKeepsInsideIff`, `SessionSelection.LogInWitness`).
- The legacy fallback repeats the path as it came, so there a trailing slash shows
  (`Redirector.TrailingSlashIff`, `Redirector.TrailingSlashWitness`).

## Model

| member | source | states |
|---|---|---|
| `AssetRewrite.AssetRefsByLength` | ocg-server/build.rs:364-377 | read in any order, the manifest comes out as its one listing: every entry once, longest plain path first, ties in byte order |
| `AssetRewrite.ReplaceHashedAssetsRefsInContent` | ocg-server/build.rs:334-342 | the loop of `replace` calls computes the rewriting function that the theorems below are about |
| `AssetRewrite.ReplaceExtends` | ocg-server/build.rs:337-339 | replacing one more, not longer, plain path after a substitution equals having it in the substitution, for every text, when it cannot interfere with the earlier hashed paths |
| `AssetRewrite.SequentialIsSimultaneous` | ocg-server/build.rs:334-342 | for every text, sequential longest-first replacement is one simultaneous substitution of every reference by its own hashed path, when occurrences overlap only at a common start and no plain path lies in or straddles an inserted hashed path |
| `AssetRewrite.OwnHashedPathIff` | ocg-server/build.rs:334-342 | a bare reference becomes its own hashed path if and only if no plain path replaced later occurs in that hashed path |
| `AssetRewrite.DelimitedReferenceIff` | ocg-server/build.rs:334-361 | anywhere in a text, a reference between delimiters becomes its own hashed path, with the rest rewritten independently, under exactly the same condition |
| `AssetNaming.CollisionIff` | ocg-server/build.rs:245-261 | two different file names of a directory can get the same hashed name for some hashes if and only if one shadows the other: it is the other plus a final dot, or ends in a dot and spells out a hashed name of it |
| `AssetNaming.CollisionWitness` | ocg-server/build.rs:245-261 | `a` and `a.` get the same hashed name under equal hashes |
| `AssetNaming.HashedPathInjective` | ocg-server/build.rs:245-261 | whatever the hashes, two files not ending in a dot share a hashed path only if they are the same file |
| `AssetNaming.HashedForms` | ocg-server/build.rs:245-261 | for every kind of file name: the digits go between the stem and the extension, or at the end, after a dot |
| `AssetNaming.SourceMapReferenceIsCorrupted` | ocg-server/build.rs:249-254 | every asset that sits beside its `.map` file is such a pair, for every hash |
| `AssetNaming.SourceMapWitness` | ocg-server/build.rs:249-254 | `/static/js/a.js` and `/static/js/a.js.map`, for all hashes |
| `AssetNaming.RootedIfDotted` | ocg-server/build.rs:240-242 | the root condition of the exact theorem holds for every file with a dot in its name in whose path the root does not occur again |
| `AssetNaming.SequentialIsSimultaneousIff` | ocg-server/build.rs:334-377 | unless plain and hashed paths straddle each other: rewriting equals simultaneous substitution on all texts if and only if no plain path occurs in the hashed path of a reference listed before it |
| `AssetNaming.RootedIff` | ocg-server/build.rs:334-377 | assets below one root never straddle; there the condition is that no plain path is a prefix of the hashed path of a reference listed before it |
| `AssetGraph.BuildHashedAssetsGraph` | ocg-server/build.rs:134-169 | fails exactly when the listing or a file cannot be read; otherwise one node per source file, an edge exactly for every path written in one of the six quoted or `url(...)` forms, no edge out of the graph |
| `AssetGraph.ReferenceIsMention` | ocg-server/build.rs:345-361 | every recorded dependency is a raw mention, so detection is never wider than rewriting |
| `AssetWriter.Writer.WriteHashedStaticAsset` | ocg-server/build.rs:189-216 | keeps the invariant (stack a duplicate-free path of edges disjoint from the manifest, manifest closed under dependencies, each asset finalised once), restores the stack on success, undoes nothing, terminates on every graph, and reports only real cycles, missing nodes and failed operations |
| `AssetWriter.Writer.Finalise` | ocg-server/build.rs:218-236 | on success exactly this asset is added to the log, and its name shows the first eight digits of the hash of the text stored under it; a failed read or write changes nothing, a failed removal leaves the hashed file written and the manifest as before |
| `AssetWriter.DifferentDigitsDifferentNames` | ocg-server/build.rs:220-221 | texts whose hashes differ in the first eight digits give an asset different names |
| `AssetWriter.Writer.WriteHashedStaticAssets` | ocg-server/build.rs:121-131 | succeeds if and only if the graph is acyclic and dependency-closed and every file operation works, whatever the key order; then the manifest's keys are the graph's keys; otherwise the report is genuine |
| `AssetWriter.LogIsTopological` | ocg-server/build.rs:210-234 | insertion order is topological: every asset comes after all of its dependencies |
| `AssetTheorems.SafeWithoutHashes` | ocg-server/build.rs:245-261 | a check of the file names alone, without hashes, suffices for the naming condition of the theorems below |
| `AssetTheorems.CompleteLogSolves` | ocg-server/build.rs:189-237 | the memoised walk solves the recursive naming equation: a name carries the hash of the text in which all dependencies are simultaneously replaced by their final names |
| `AssetTheorems.SolutionIsUnique` | ocg-server/build.rs:218-222 | the naming equation has at most one solution on a graph that a walk can finish |
| `AssetTheorems.ManifestIsOrderIndependent` | ocg-server/build.rs:121-131 | any two complete walks, in whatever order, give the same manifest |
| `AssetTheorems.UnrecordedMentionMakesOrderMatter` | ocg-server/build.rs:345-361 | for two assets without dependencies of which one mentions the other: visited after the mentioned one its text is rewritten, visited before it is left as it is, for every hash |
| `AssetTheorems.DistHoldsEveryAsset` | ocg-server/build.rs:224-234 | with safe names not ending in a dot, no finalised asset overwrites another one or a plain copy |
| `AssetOrder.TextsAgree` | ocg-server/build.rs:121-131 | if at every position the winning path is one the asset reaches, any two walks write the same texts |
| `AssetOrder.SameTextSameWinners` | ocg-server/build.rs:334-342 | knowing more final names never shortens a text, and leaves it unchanged only if the same paths win at every position |
| `AssetOrder.OrderIndependentIff` | ocg-server/build.rs:121-131 | on every acyclic closed graph with safe names whose prefix-related assets get different digits: all complete walks write the same texts if and only if, at every position of the text of every asset, the longest plain path that may be final before it is one it reaches |
| `AssetOrder.PrefixFreeOrderIndependentIff` | ocg-server/build.rs:121-131 | the same for every hash when no path begins with another one |
| `AssetOrder.TwinsHideTheOrder` | ocg-server/build.rs:245-261 | the digits have to differ: for two empty assets such as `a.j` and `a.js` the winner is not reached and still all walks write the same texts |
| `AssetOrder.TwinsWitness` | ocg-server/build.rs:245-261 | a concrete graph with safe names in which this happens |
| `AssetOrder.RecordedMentionsSuffice` | ocg-server/build.rs:352-361 | recording every mention as a dependency meets the condition |
| `AssetBuild.BuildAssets` | ocg-server/build.rs:121-169 | from source files to the result, in any visiting order: succeeds exactly on an acyclic graph with working file operations; with safe names every name shows the first eight digits of the hash of the text stored under it, and with recorded mentions the manifest is the one solution of the naming equation and the dist directory holds exactly the texts of that solution |
| `ActivityBatches.AggregateAllCounts` | ocg-server/src/activity_tracker.rs:223-239 | aggregated totals are the direct counts on top of what was pending, modulo 2^32, for every kind, entity and day |
| `ActivityBatches.CountIsCardinality` | ocg-server/src/activity_tracker.rs:223-239 | a direct count is the number of activities of that kind, entity and day |
| `ActivityBatches.Batches.DrainQueuedActivities` | ocg-server/src/activity_tracker.rs:249-253 | empties the queue; every counter grows by the number of queued activities of its kind and entity that were taken on its day, modulo 2^32 |
| `ActivityBatches.PrepareBatchData` | ocg-server/src/activity_tracker.rs:196-203 | rows are strictly sorted by entity and day, have unique keys and convert back to exactly the map |
| `ActivityBatches.PreparedRowsAdd` | database/migrations/functions/community/update_community_views.sql:9-22 | upserting the prepared rows is the key-wise sum of the table and the counters of active entities: nothing else dropped, nothing counted twice |
| `ActivityBatches.ViewTables.FlushBatch` | ocg-server/src/activity_tracker.rs:166-192 | each table gains exactly its own counters of active entities, or nothing if its own update failed; an empty kind is not written |
| `ActivityPipeline.Conservation` | ocg-server/src/activity_tracker.rs:107-192 | over every interleaving, for each kind, entity and day: aggregated = pending + in the channel + in the flusher's hand + written + lost + overflowed; accepted = aggregated, then queued, then unread, in order; both capacities are respected and no worker winds down before cancellation |
| `ActivityPipeline.ShutdownIsExactIff` | ocg-server/src/activity_tracker.rs:144-152 | once both workers are done, the tables hold exactly what was tracked if and only if no step of the run tracked while the aggregator was closing, threw a non-zero count away, or wrapped a total |
| `ActivityPipeline.LateTrackWitness` | ocg-server/src/activity_tracker.rs:144-152 | the run in which one activity is tracked after the drain ends with empty tables |
| `ActivityPipeline.ShutdownCompleteness` | ocg-server/src/activity_tracker.rs:144-192 | no failed update, no `track` while closing, fewer than 2^32 activities: the tables are exact |
| `ActivityPipeline.FlushTimingIsInvisible` | ocg-server/src/activity_tracker.rs:132-137 | two unspoilt runs to the end with the same aggregated activities and days leave the same totals, wherever the ticks fell |
| `ActivityPipeline.TickDelivers` | ocg-server/src/activity_tracker.rs:132-137 | from every reachable running state with a pending batch and a live flusher, one tick and then sending and accepted writes bring every count aggregated so far into the tables, except what was lost or overflowed before, and leave nothing under way |
| `ActivityPipeline.TrackedIsDelivered` | ocg-server/src/activity_tracker.rs:107-142 | from every such state any activity can be tracked and gets into the tables, with everything accepted before it, without a shutdown |
| `ActivityPipeline.IdleTick` | ocg-server/src/activity_tracker.rs:133-133 | a tick with nothing pending sends nothing |
| `ActivityPipeline.StepsShrinkWork` | ocg-server/src/activity_tracker.rs:122-192 | every step of a worker, in every state, decreases the remaining work |
| `ActivityPipeline.ShutdownTerminates` | ocg-server/src/activity_tracker.rs:144-192 | after cancellation every run of the two workers, in any order, is bounded by the remaining work, and no worker step is left exactly when both are done |
| `ActivityPipeline.ShutdownIsReachable` | ocg-server/src/activity_tracker.rs:144-152 | from every cancelled state the two workers alone can reach their end |
| `UnitOfWork.PgUnitOfWork.Commit` | ocg-server/src/db.rs:166-176 | takes the client out once; a failed commit is followed by a rollback attempt; an abandoned one is not; a completed unit of work is an error |
| `UnitOfWork.PgUnitOfWork.Rollback` | ocg-server/src/db.rs:179-183 | takes the client out once and reports the fate of the rollback |
| `UnitOfWork.PgUnitOfWork.Drop` | ocg-server/src/db.rs:186-198 | rolls back only a client still owned and only with a runtime; a completed unit of work is left alone |
| `UnitOfWork.RunOn` | ocg-server/src/db.rs:274-278 | all statements of a callback go to the client the unit of work owns; once it is completed every statement fails without reaching the server |
| `UnitOfWork.Transaction` | ocg-server/src/db.rs:350-368 | refines the transaction specification for every point of abandonment and releases the client exactly once over commit, rollback and drop |
| `UnitOfWork.AllOrNothing` | ocg-server/src/db.rs:350-368 | for every callback, every fate of every command, every point of abandonment and every session: the database ends with no effect or with the effects of all statements of a run in which none failed, after what the session brought along |
| `UnitOfWork.DoneIff` | ocg-server/src/db.rs:350-368 | a transaction succeeds if and only if the session can begin, begin and commit are accepted, the callback returns a value and nobody goes away meanwhile |
| `UnitOfWork.ChainDoneIff` | ocg-server/src/db.rs:350-368 | a chain of `n` statements that each have to succeed commits if and only if all its `n + 2` commands are accepted |
| `UnitOfWork.DoneMeansCommitted` | ocg-server/src/db.rs:358-362 | `Ok` means one commit, the last command, succeeded; everything is durable exactly if no statement failed, and nothing otherwise |
| `UnitOfWork.SwallowedErrorWitness` | ocg-server/src/db.rs:358-362 | a callback that swallows a refused statement gets `Ok` with nothing committed |
| `UnitOfWork.DoneMeansDurable` | ocg-server/src/db.rs:358-362 | with an error-propagating callback, `Ok` means that all its effects are durable |
| `UnitOfWork.CallbackErrorRollsBack` | ocg-server/src/db.rs:363-366 | a callback error is returned unchanged, no commit was issued, the last command is a rollback and nothing was committed |
| `UnitOfWork.FailedCommitRollsBack` | ocg-server/src/db.rs:169-174 | the commands of a failed commit that is not abandoned end in commit, rollback |
| `UnitOfWork.AbandonedCommitsNothing` | ocg-server/src/db.rs:186-198 | a transaction whose callback does not return a value, because it was abandoned or failed, never issues a commit and commits nothing |
| `UnitOfWork.GoesBackFreshIff` | ocg-server/src/db.rs:186-198 | a client goes back to the pool outside any transaction, or broken, if and only if it was not abandoned during a successful `begin` and no rollback was refused or missing for want of a runtime |
| `UnitOfWork.SequenceIsAtomic` | ocg-server/src/db.rs:147-154 | over any sequence of transactions on one client of which none strands it, each adds nothing or exactly its own effects |
| `UnitOfWork.StrandedWitness` | ocg-server/src/db.rs:192-196 | an abandoned transaction without a runtime has its effect committed by the next one |
| `LeaveEvent.LeaveEvent` | ocg-server/src/handlers/event.rs:490-574 | runs exactly one transaction, passes its failure on and gives no response when abandoned; undisturbed, it answers with the left status if and only if begin, every statement of the departure and the commit are accepted and, for an attendee, the payload builds; the waitlist notice is sent exactly for a waitlist exit whose notice goes through |
| `LeaveEvent.LeaveDoneIff` | ocg-server/src/handlers/event.rs:502-526 | the exact success condition of the transaction: three accepted commands, or six and a payload for an attendee |
| `LeaveEvent.DepartureIsAtomic` | ocg-server/src/handlers/event.rs:502-526 | on every session, whichever step fails and whenever the caller goes away, leaving as an attendee and its cancellation notification are both committed or neither is; a success response means they are |
| `Checkout.CreateCheckoutHold` | ocg-server/src/handlers/event.rs:941-973 | without a ticket no hold is requested; otherwise exactly one, carrying the input |
| `Checkout.StartCheckout` | ocg-server/src/handlers/event.rs:607-694 | a hold is requested exactly when the event is active and the answers pass against questions loaded in this request; the response is the one the hold leads to and the rest of the run is the tail its purchase determines |
| `Checkout.FinishStartedCheckout` | ocg-server/src/handlers/event.rs:649-693 | refines the common checkout tail |
| `Checkout.AttendEvent` | ocg-server/src/handlers/event.rs:219-408 | for all replies: the attendance request is for the ticket asked for, or the only selectable one; its answers passed against questions loaded before unless the event has no approval, a waiting list and the ticket sold out, and exactly then no questions are loaded before it; every hold carries answers that passed; a hold is requested exactly when the database says pending payment, a ticket is known and deferred answers were re-validated; every response is determined |
| `Checkout.AttendPendingPayment` | ocg-server/src/handlers/event.rs:278-291 | a waitlist decision that turned into checkout re-validates deferred answers, or answers that they are required, before any hold |
| `Checkout.AttendThroughCheckout` | ocg-server/src/handlers/event.rs:294-323 | without a ticket an error; otherwise the hold, its error or conflict, or the tail of its purchase |
| `Checkout.FinishAttendedCheckout` | ocg-server/src/handlers/event.rs:324-366 | refines the common checkout tail, in the other branch order |
| `Checkout.NotifyAttendance` | ocg-server/src/handlers/event.rs:364-407 | never changes the status response and enqueues exactly for new waitlist entries whose notice can be built |
| `Checkout.PaymentsAreJustified` | ocg-server/src/handlers/event.rs:324-356 | in every trace of either handler a payment call directly follows the hold that prepared its pending purchase: free completion for price zero, a redirect otherwise |
| `Checkout.TailsAgree` | ocg-server/src/handlers/event.rs:649-693 | whichever of the two handlers produced two traces, the same prepared purchase leads to the same payment calls and the same response |
| `Identity.TakenIff` | database/migrations/schema/0058_add_user_linuxfoundation_provider_identity_index.sql:2-10 | the unique indexes accept a row exactly when no other row has its email or its indexed identity |
| `Identity.LoginFrame` | ocg-server/src/auth.rs:250-304 | a login keeps the table valid and touches no row but the one it returns, which is then registered |
| `Identity.LoggedInRow` | ocg-server/src/auth.rs:250-304 | whoever is logged in is a registered and verified user with the email of the summary; GitHub and Linux Foundation metadata are the incoming ones where there are any and the old ones of a registered user otherwise |
| `Identity.LoginSucceedsIff` | ocg-server/src/auth.rs:250-304 | a login succeeds if and only if no other row has its email or indexed identity, it does not relink a registered user, and the write goes through or is not needed |
| `Identity.LoginAgain` | ocg-server/src/auth.rs:250-304 | whoever has logged in can log in again with the same summary, as the same user |
| `Identity.UnverifiedStaysUntouched` | database/migrations/functions/auth/get_user_by_email_for_external_auth.sql:13-18 | a registered user whose email was never verified is not touched by anyone's login |
| `Identity.LoginKeepsIdentitiesIff` | ocg-server/src/auth.rs:279-297 | a login leaves every registered identity alone if and only if it does not carry incomplete Linux Foundation metadata for the email of a registered user with an identity |
| `Identity.OverwriteWitness` | ocg-server/src/auth.rs:287-297 | metadata without issuer and subject erases the identity of the user it matches by email |
| `Identity.LoginGivesIdentity` | ocg-server/src/auth.rs:250-304 | whoever logs in with an identity ends up as a user with exactly that identity |
| `Identity.ReturningUserKeepsAccount` | ocg-server/src/auth.rs:254-262 | a known identity is only ever logged in as its own user, with the new email, and fails exactly when that email is someone else's or the write fails |
| `Identity.LoginsNeverRelink` | ocg-server/src/types/user.rs:72-96 | no run of logins built by the two login flows changes a registered identity, gives one pair to two users, or one email to two users |
| `Identity.AuthnBackend.GetUserByIdentity` | database/migrations/functions/auth/get_user_by_linuxfoundation_identity_for_external_auth.sql:12-30 | finds the verified registered user with this pair, if there is one |
| `Identity.AuthnBackend.GetUserByEmail` | database/migrations/functions/auth/get_user_by_email_for_external_auth.sql:13-18 | finds the verified or pre-registered user with this email in any letter case, if there is one |
| `Identity.AuthnBackend.GetOrSignUpExternalUser` | ocg-server/src/auth.rs:250-304 | refines the login specification: identity first, then email, then sign-up |
| `Identity.AuthnBackend.Reconcile` | ocg-server/src/auth.rs:265-298 | refines the email branch: activate a placeholder, refuse a different identity, merge otherwise |
| `SessionSelection.Session.SelectFirstCommunityAndGroup` | ocg-server/src/handlers/auth.rs:1177-1203 | the new selection, and that an empty group list falls back to communities |
| `SessionSelection.Session.SyncSelectedCommunityAndGroup` | ocg-server/src/handlers/auth.rs:1206-1234 | on success the selection is the community with its first group or none; it fails, changing nothing, exactly without a list or when a required group is missing |
| `SessionSelection.Session.SelectFirstAccessibleGroup` | ocg-server/src/handlers/auth.rs:1136-1174 | returns exactly the pair it stores: the first group of the selected community if it has one, else of the first listed community that has one; finds nothing exactly when none has |
| `SessionSelection.Session.SelectFirstAccessibleCommunity` | ocg-server/src/handlers/auth.rs:1110-1133 | returns exactly the community it stores, with its group aligned; otherwise nothing changes |
| `SessionSelection.Session.CheckSelectedGroupPermission` | ocg-server/src/handlers/auth.rs:870-949 | a request is handed on exactly with the session's own pair and exactly when the permission query answered true for it; refused if only reading is allowed, logged out with the selection cleared if not even that |
| `SessionSelection.Session.CheckSelectedCommunityPermission` | ocg-server/src/handlers/auth.rs:807-866 | the same for the selected community |
| `SessionSelection.Session.SelectGroup` | ocg-server/src/handlers/auth.rs:761-802 | a group is selected exactly when the query says it belongs to the selected community and the user has the permission there; otherwise nothing changes |
| `SessionSelection.Session.SelectAddedGroup` | ocg-server/src/handlers/dashboard/community/groups.rs:157-160 | a new group is selected exactly if none was |
| `SessionSelection.Session.ReplaceDeletedGroup` | ocg-server/src/handlers/dashboard/community/groups.rs:198-213 | a deleted selected group is replaced by the first one left in the selected community, or by none; otherwise nothing changes |
| `SessionSelection.LogInKeepsInsideIff` | ocg-server/src/handlers/auth.rs:1177-1203 | a login keeps the selected group inside the selected community if and only if it does not leave an older group of another community selected |
| `SessionSelection.LogInWitness` | ocg-server/src/handlers/auth.rs:1193-1200 | group 7 of community 1 stays selected when a login finds only community 2 |
| `SessionSelection.SelectionStaysInside` | ocg-server/src/handlers/auth.rs:1110-1234 | with truthful database replies, over every run of selections, syncs, repairs, middleware passes, group additions and deletions that starts inside and logs in without a selected group, the selected group stays inside the selected community |
| `Redirector.AcceptedHostIff` | ocg-redirector/src/router.rs:119-126 | a host is accepted with a name if and only if it normalises to exactly that non-empty dot-free name, a dot and the suffix |
| `Redirector.HostRoundTrip` | ocg-redirector/src/router.rs:119-147 | a printed name is parsed back in any ASCII case, with any trailing dots, port and surrounding blanks |
| `Redirector.NormalizedSuffix` | ocg-redirector/src/router.rs:161-167 | a configured suffix normalises to one the round trip covers, or to nothing |
| `Redirector.SuffixRoundTrip` | ocg-redirector/src/router.rs:161-167 | a suffix is recovered from any letter case and any dots and blanks around it |
| `Redirector.LoadRedirects` | ocg-redirector/src/db.rs:46-72 | succeeds exactly when everything can be read, and then the index is the last-row-wins reading of the rows with all seeded communities present |
| `Redirector.Start` | ocg-redirector/src/main.rs:65-68 | serves only if the first load can be read |
| `Redirector.Server.Refresh` | ocg-redirector/src/main.rs:114-122 | after every attempt the served index is that of the latest load that could be read; a failed load changes nothing |
| `Redirector.Server.Answer` | ocg-redirector/src/router.rs:70-107 | after any refreshes a request is answered, from one snapshot, as the rows of the latest readable load say |
| `Redirector.TrailingSlashIff` | ocg-redirector/src/router.rs:70-107 | requests that differ in trailing slashes get the same answer if and only if they do not really differ or are not sent to the legacy site |
| `Redirector.TrailingSlashesDoNotCount` | ocg-redirector/src/router.rs:150-158 | normalising drops trailing slashes and nothing else; slashes alone are the root |
| `Redirector.LegacyTarget` | ocg-redirector/src/router.rs:134-139 | the legacy target is the configured address without trailing slashes, the path as it came and, if there is one, a question mark and the query |
| `Redirector.TrailingSlashWitness` | ocg-redirector/src/router.rs:134-139 | `/p` and `/p/` get different legacy targets |

## Left out

- Copying, Tailwind, the directory walk and the rewriting of templates in `build.rs`: file plumbing; templates go through the same rewriting function.
- SHA-256 is any function to 64 hex digits; only the exact condition of `AssetOrder.OrderIndependentIff` asks more of it.
- A `char` stands for one UTF-8 code unit, so lengths and byte order are those of Rust strings; trimming and letter case are ASCII only.
- A source file is taken to have the same text when the graph is built and when it is rewritten, and dist paths are identified with public paths.
- AssetNaming.SequentialIsSimultaneousIff: paths that run into or out of one another are outside the exact statement, as they can be when a directory called `static` is nested below `/static/`; single references between delimiters are exact without it (`AssetRewrite.DelimitedReferenceIff`).
- AssetOrder.OrderIndependentIff: two assets of which one path begins with the other are taken to differ in the eight digits of their hashes; with equal digits the condition is sufficient but not needed (`AssetOrder.TwinsHideTheOrder`).
- The worker loops of the activity tracker are steps rather than loops: tokio's scheduling, its `biased` polling order and wall-clock ticks are over-approximated by allowing any order, so no latency is claimed.
- A failed views update counts as not written; that totals too large for the integer columns make an update fail is one of the reasons the model leaves open.
- ActivityPipeline.ShutdownTerminates: counts the steps of the two workers; producers and timer ticks that keep arriving are not bounded by it.
- External logins are atomic in the model: interleaving of one login's lookups and writes with another's is left to the unique indexes.
- Usernames, display names, blank-email checks and the blanks around emails are not modelled; an identity with an empty issuer or subject is outside the unique index and its uniqueness is not claimed.
- Requests of one session are taken one after the other; a session store that fails between two inserts is not modelled.
- Checking answers against a questionnaire, permission queries and payment provider calls are parameters; user, event and community identifiers that never change within a request are not recorded in the traces.
- Refund, claim, waitlist, badge and meeting transitions live in SQL functions outside this model, as do router tables, page templates, form validation, calendar text and image checks: wiring or one-branch code.
- Handing a client out of the pool to two callers at once, and the pool closing a client for its age, are not modelled.
