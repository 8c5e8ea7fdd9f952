# BucketMux storage gateway: a Dafny model of its database protocols

BucketMux stores objects at many providers and keeps all of its state in a few SQL tables that several instances
change at once. This project models those tables as finite maps, every transaction or single statement as one atomic
step, and every handler as a method over mutable fields, and proves what the tables keep over whole runs.

| module | what it covers |
|---|---|
| `Timestamps`, `Text` | times as RFC 3339 text with trimmed fractions, byte order of text, and how far text order is clock order |
| `Ledger`, `Reservations`, `Placement`, `Upload` | byte reservations and what one lives through, the router's choice, the upload loop with failover |
| `VersionOrder`, `ObjectIndex`, `Objects`, `ObjectStore` | current index, versions, delete markers, trash, replicas, migrations |
| `VersionBacking`, `StoreShape`, `ByteSafety`, `ObjectLock` | what the tables always look like, which bytes a request asks to delete and whether a row still points to them, Object Lock |
| `StoredPuts`, `Outcomes` | what a put leaves to read and that its protection holds from then on; what callers are told, trash round trips, queued replicas |
| `Usage`, `UsageExactness`, `UsageConservation`, `UsageInterleavings` | what rows store, the exact condition of each request for a right counter, whole runs, and the statements between requests |
| `WorkQueue`, `WorkerProtocol`, `Heartbeats` | job tables, claims, stale recovery, retries, and exclusion derived from a schedule of heartbeats |
| `RedisLeases`, `MaintenanceLeases` | the two kinds of lease |
| `EarlyReadings` | reservations, trash and jobs taken for due before their time |
| `Embeddings`, `Generations`, `RowIdentity` | vector blobs, bounded top-k search, generation-guarded writes, the text hashed into a row id |
| `Listing`, `Scans` | listing pages, continuation tokens, grouping by delimiter, scan-while-changing loops, the purge loop |
| `Common`, `Sums`, `Sorting` | result types, sums over maps, sorting |

The classes (`LedgerStore`, `Store`, `EmbeddingStore`, `JobTable`, `RedisCoordinator`, `LeaseTable`, `Catalog`,
`Trash`) have the tables as fields. Each method's contract equates the new tables with a function of the old ones;
the lemmas are about those functions, their compositions, and runs of them.

## What the proofs found

* Text order of two times is clock order except exactly when both fall in one second and the trimmed fraction of one
  continues that of the other (`Timestamps.FractionClash`); section 5.1 of RFC 3339 promises sortable text only for
  equal fraction widths. The corner reaches these places, each with its exact condition:
  - the newest version of a key, after a put (`ObjectIndex.PutKeepsNewestExactly`) and after a delete marker
    (`ObjectIndex.MarkerKeepsNewestExactly`), over versions and over objects from before versioning;
  - the end of a temporary outage, which the router reads as a time and the ledger as a text
    (`Placement.AvailabilityDiffersInClash`);
  - the maintenance lease, which can be given away before it expires (`MaintenanceLeases.StolenExactlyInClash`);
  - stale recovery, which can take a live worker's row although its heartbeats are inside the stale window
    (`WorkerProtocol.RecoveryExclusiveExactly`, with an input in `WorkerProtocol.FreshRowTaken` and the consequence in
    `WorkerProtocol.TakenJobRunsTwice`); a second of margin rules it out (`WorkerProtocol.MarginNeverDisrupts`);
  - recovery of reservations, which can take one that has not expired and so fail a running upload's commit
    (`EarlyReadings.ReservationExactly`, `EarlyReadings.EarlyRecoveryFailsCommit`);
  - the purge of trash and the listing of jobs, which can come before their time (`EarlyReadings.TrashExactly`,
    `EarlyReadings.JobExactly`).
* The router and the application read the same numeric provider setting differently exactly when it is above the 64-bit
  range (`Placement.ReadersAgree`).
* What the router admits the ledger admits too, for every provider state, exactly when the quota margin and the
  free-space floor, as the application reads them, are not above the floor as the router reads it, and the monthly limit
  is not above the 64-bit range (`Placement.MarginConditionIsExact`).
* A release of a maintenance lease frees the name for the next caller, who then shares it with an unexpired holder
  exactly if there was one besides the releasing worker (`MaintenanceLeases.LateReleaseExactly`). A caller's check that
  the row still carries its own expiry would make every release harmless (`MaintenanceLeases.GuardedRunSound`); the code
  does not make it. The Redis lease has the check in its token (`RedisLeases.LeaseSurvives`).
* The lifecycle's purge loops end exactly when fewer rows than a page are due and cannot be purged
  (`Scans.PurgeEndsExactly`); with a full page of such rows they ask for the same rows for ever.
* A replica is queued by writing over its row, whatever state it is in, so an overwrite during replication lets a second
  worker execute it at once, and a finished replica is executed again; no clock is involved
  (`WorkerProtocol.RewriteExclusive`, `WorkerProtocol.RewrittenRunsTwice`, `WorkerProtocol.RewrittenRunsAgain`).
* Object Lock holds whatever clocks do, from the put on (`StoredPuts.PutUnderRetentionHolds`, `ObjectLock.RetentionHolds`, `ObjectLock.LegalHoldHolds`), for compliance mode
  against the bypass flag too as long as no update gives the version the other mode (`ObjectLock.ComplianceHolds`); the
  code allows such an update with a later end (`ObjectLock.RetentionExactly`). A move migration asks for the old bytes
  of the object it moves even if a version row, locked or not, still points to them (`ObjectLock.MoveKeepsExactly`).
* A request keeps the bytes of all remaining rows if and only if it meets `ByteSafety.KeepsBytes`
  (`ByteSafety.StepSafe`): mainly, what it stores goes to a place that no other row points to. Two sequences do not: an
  overwrite that fails over to the provider of the key's replica has its own new bytes deleted with that replica
  (`ByteSafety.OverwriteTakesNewBytes`, with an input in `ByteSafety.FailoverTakesNewBytes`), and an object put again at
  the place of its trashed predecessor loses its bytes when the trash is purged (`ByteSafety.PurgeTakesNewBytes`).
* For every request `UsageExactness.Counts` is the exact condition under which a provider's counter is right afterwards
  (`UsageExactness.StepExactly`), and every run of requests that meet it keeps all counters exact, in replicated buckets
  and whatever clocks do (`UsageConservation.UsageStaysExact`, `UsageConservation.UsageConserved`). What does not meet it:
  - dropping replica rows takes off bytes that a queued or failed replica was never charged for
    (`UsageExactness.DropReplicasExact`, with an input in `UsageExactness.QueuedReplicaUndercounts`); that reaches
    overwrites, deletes, and deletes of the version shown (`UsageExactness.VersionDeleteExact`);
  - removing a delete marker queues the newest version's replicas again even when they are stored and charged
    (`UsageExactness.MarkerRemovalExact`), and a run of a replica that ends after its row was charged by a copy or by a
    second worker writes over that charge (`UsageExactness.ReplicateExact`);
  - a move migration of an object with a version row takes off bytes that the version row still counts and adds bytes
    that no row counts (`UsageExactness.MoveExact`); it also puts the current object apart from its newest version
    (`UsageExactness.MoveKeepsNewestExactly`);
  - restoring trash over a version with the id "null" (`UsageExactness.RestoreTrashExact`);
  - a permanent delete of a current object in a versioned bucket, which leaves its version row
    (`UsageExactness.PermanentDeleteExact`). No caller in the repository sets the `Permanent` option; the theorem is
    about the function as written.
* Between statements, counters stay exact exactly as long as an index write or removal finds what its request has read
  (`UsageInterleavings.StepExactly`). Requests that follow one another on each key guarantee that
  (`UsageInterleavings.SerialRunsAreExact`); two overlapping deletes of one object take its bytes off twice
  (`UsageInterleavings.TwoDeletesRace`).

## Model

| member | source | states |
|---|---|---|
| Timestamps.FormatInjective | internal/store/store.go:1611-1616 | two times with one text are one time, for every year from 0 to 9999 |
| Timestamps.TextOrderIsClockOrder | internal/store/store.go:1611-1624 | text order is clock order for two different times if and only if they are not in a fraction clash; always for different whole seconds |
| Timestamps.TextOrderSlack | internal/store/store.go:902-908 | whatever the fractions, a text at most another means less than a second later, and a second earlier always sorts before |
| Timestamps.EarlyExactlyInClash | internal/store/maintenance.go:8-17 | a time that has not passed compares as past if and only if it clashes with the clock |
| Timestamps.ReachedExactlyInClash | internal/store/quota.go:153-165 | a time still to come compares as reached if and only if it clashes with the clock |
| Timestamps.ClashExample | internal/store/store.go:1611-1616 | two times nine nanoseconds apart whose texts sort the wrong way round |
| Timestamps.FormatExample | internal/store/store.go:1611-1616 | a whole second as it is written |
| EarlyReadings.ReservationExactly | internal/store/quota.go:153-165 | a reservation that has not expired is recovered if and only if its end clashes with the cutoff |
| EarlyReadings.EarlyRecoveryFailsCommit | internal/store/quota.go:70-177 | then its upload can never commit it |
| EarlyReadings.TrashExactly | internal/store/version_protection.go:127-147 | a trash row is due before its time if and only if that clashes with the clock |
| EarlyReadings.JobExactly | internal/store/store.go:863-897 | a job is listed before its time if and only if that clashes with the clock |
| Ledger.LedgerStore.ReserveProviderCapacity | internal/store/quota.go:14-68 | the reservation transaction: granted exactly when the guard admits the rolled-over account and the id is new, invalid exactly without an id or provider or with negative bytes; a refused or failed one rolls back the month reset too |
| Reservations.GrantLeaves | internal/store/quota.go:37-64 | a grant adds one row with the provider, bytes and expiry asked for, reserves the bytes and changes no other row |
| Reservations.GrantedExactly | internal/store/quota.go:37-60 | the guard in plain numbers, for all accounts and requests |
| Reservations.LiveExactly | internal/store/quota.go:70-177 | whatever others do, a reservation is gone if and only if a recovery's cutoff has reached its expiry; otherwise its row is unchanged |
| Reservations.GrantedCommits | internal/store/quota.go:14-106 | from the grant on, through anything others do with recoveries a second or more before its expiry, it stays live, and its commit adds the stored bytes to used and monthly, ends it and ends the outage |
| Reservations.UsedIsSum | internal/store/quota.go:70-106 | over every interleaving without clamps and reconciliations the usage counter is what it was plus what was committed and adjusted |
| Reservations.StepIsLocal | internal/store/quota.go:14-206 | a transaction leaves every other provider's account alone |
| Reservations.OutageRefuses | internal/store/quota.go:43-43 | with an outage recorded nothing is granted, except after the recorded end of a temporary one |
| Reservations.OutageEnds | internal/store/quota.go:43-43 | after that end the guard decides as without the outage |
| Reservations.ReconciliationFrees | internal/store/quota.go:179-185 | a reconciliation sets the counter and ends a quota outage and no other |
| Reservations.RemoteQuotaBinds | internal/store/quota.go:187-196 | a measured remote quota limits the next grant |
| Ledger.LedgerStore.CommitProviderReservation | internal/store/quota.go:70-106 | succeeds exactly for a live reservation and a non-negative size, moving its bytes from reserved to used and monthly and clearing the outage |
| Ledger.LedgerStore.ReleaseProviderReservation | internal/store/quota.go:108-137 | takes exactly one live reservation and its bytes away, and does nothing otherwise |
| Ledger.LedgerStore.SumExpired | internal/store/quota.go:154-162 | the row-by-row grouping gives, for every provider, the sum of its expired reservations |
| Ledger.LedgerStore.RecoverExpiredProviderReservations | internal/store/quota.go:139-177 | removes exactly the rows whose expiry text is at most the cutoff, takes their sum from each provider, and returns their number |
| Ledger.LedgerStore.AddProviderUsage | internal/store/store.go:1236-1239 | adjusts the counter of an existing provider and never below zero |
| Ledger.LedgerStore.SetProviderUsage | internal/store/quota.go:179-185 | replaces the counter, clamped at zero, and clears a quota outage only |
| Ledger.LedgerStore.SetProviderRemoteQuota | internal/store/quota.go:187-196 | replaces the remote pair, each clamped at zero, and nothing else |
| Ledger.LedgerStore.MarkProviderUnavailable | internal/store/quota.go:198-206 | records state and end of an outage and touches no counter |
| Ledger.ClampsNeverFire | internal/store/quota.go:81-165 | whenever the counters are conserved, no release, commit or recovery ever takes more than is there |
| Ledger.StepConserves | internal/store/quota.go:14-177 | every transaction keeps each provider's reserved bytes equal to the sum of its reservation rows |
| Ledger.RunConserves | internal/store/quota.go:14-177 | so does every interleaving of any number of instances |
| Ledger.StepLoad | internal/store/quota.go:37-60 | one transaction raises used plus reserved only within the capacity or by the commit's overshoot |
| Ledger.CapacitySafety | internal/store/quota.go:14-177 | over every interleaving used plus reserved passes a configured capacity by at most the total overshoot of commits |
| Ledger.CapacityNeverExceeded | internal/store/quota.go:37-104 | with commits inside their reservations a configured capacity is never passed |
| Ledger.LateCommitChangesNothing | internal/store/quota.go:70-137 | committing or releasing a recovered reservation at any later time changes nothing |
| Ledger.StepAllowance | internal/store/quota.go:37-91 | one transaction keeps month uploads plus reservations inside the limit, and the counter moves only by commits or a reset by a granted reservation |
| Ledger.PastLabelIsClosed | internal/store/quota.go:37-60 | once the row has moved past a month label nothing is counted under it again |
| Ledger.MonthlyAllowance | internal/store/quota.go:37-91 | over every run with labels that never go back, uploads plus reservations fit the limit and at most the limit is counted under any one month label, across resets and rolled-back reservations |
| Placement.ReadersAgree | internal/router/placement.go:100-110 | the router's reader of a setting agrees with the application's (internal/app/planner.go:138) if and only if the number is not above the 64-bit range |
| Placement.PreferenceIsWeakOrder | internal/router/placement.go:46-64 | priority, cost, free bytes and id order providers consistently, so the sort is well defined |
| Placement.Choose | internal/router/placement.go:26-67 | returns a usable provider that no usable one beats, and fails exactly when none is usable |
| Placement.UnbeatenMeans | internal/router/placement.go:46-64 | the chosen provider has no lower priority, cost, free space or id beside it, in that order of importance |
| Placement.EligibleExactly | internal/router/placement.go:69-134 | a provider is eligible if and only if it is not in an outage, the object is no larger than it takes, and with the object stored the floor and the month's limit still hold |
| Placement.TooLargeIsRefused | internal/router/placement.go:69-98 | an object above a provider's maximum is never placed there |
| Placement.AvailabilityAgrees | internal/router/placement.go:126-134 | outside a clash the router's time comparison and the ledger's text comparison of an outage's end agree |
| Placement.AvailabilityDiffersInClash | internal/router/placement.go:126-134 | for a throttled or unavailable provider they agree if and only if there is no clash |
| Placement.EligibleIsReservable | internal/router/placement.go:69-134 | a provider eligible for the router passes the reservation guard when the settings agree: nothing that the ledger keeps free is more than the router keeps free, and the monthly limit is in range |
| Placement.MarginConditionIsExact | internal/app/service.go:276-280 | that condition on the settings, over all settings above and below the 64-bit range, is exactly the one under which it holds of every provider state |
| Placement.ReservableIsEligible | internal/store/quota.go:37-60 | conversely a reservable provider passes every router check except exclusion and object size, if its capacities exceed the margin |
| Upload.PutOnSomeProvider | internal/app/service.go:267-310 | the failover loop ends for a finite set of enabled providers, leaves no reservation of its own, adds the stored size to used and monthly of exactly one provider on success and of none on failure, and leaves of the bytes stored for it exactly those it placed, whatever adapters and other instances do. The turns it met explain its result and every transaction it made: each is at the best usable provider not tried yet; it goes on exactly after a refused reservation or a quota, throttling, credentials or reachability failure, and gives up only when no usable one is left |
| Upload.StoreReserved | internal/app/service.go:288-309 | under a reservation: the bytes are committed if it is still live; otherwise it is released and stored bytes are asked to be deleted; the turn goes on or ends as its ending says, with exactly these transactions |
| Upload.CommitStored | internal/app/service.go:301-307 | stored bytes are placed exactly if the reservation is live at the commit |
| Upload.StatusTellsKind | internal/app/provider_onboarding.go:91-97 | each kind of failure is recorded under its own status |
| Upload.RecordedFailureBinds | internal/app/provider_onboarding.go:91-110 | a recorded failure keeps reservations away, until its end if it is throttling or reachability, and a reconciliation ends it if and only if it is a quota failure |
| Upload.CommitGrows | internal/app/service.go:301-307 | the commit of a live reservation is the one own step that stores bytes, at the reserved provider |
| Upload.QuietStep | internal/app/service.go:280-300 | reserving, releasing and recording a failure store nothing anywhere, month resets included |
| Upload.Interfere | internal/store/quota.go:14-177 | other instances' transactions keep conservation and can only remove, never alter or add, this upload's reservations |
| Upload.RecordFailure | internal/app/provider_onboarding.go:91-117 | exactly the classified failures that are not permanent are recorded, with their status and end, and nothing else changes |
| VersionOrder.ListingIsTotal | internal/store/version_protection.go:32-50 | any two version rows are listed in exactly one order |
| VersionOrder.FirstRowIsNewest | internal/app/protection.go:233-248 | in a listing by a key's own name, however many longer keys share the prefix, the first row of that key is its newest version, and there is none exactly when it has no versions |
| VersionOrder.InsertedIsNewest | internal/store/version_protection.go:13-22 | a row created after all others of its key becomes the newest |
| VersionOrder.NewestAfterDrop | internal/store/version_protection.go:52-55 | removing any other version leaves the newest |
| ObjectIndex.PutKeeps | internal/app/service.go:338-369 | a put in a versioned bucket shows its own version as current, archives an object from before versioning, and adds no other row |
| ObjectIndex.PutKeepsNewestExactly | internal/app/service.go:338-369 | with a clock that only moves on, a put keeps current equal to newest if and only if its time does not clash with that of the newest version, which is the archived object itself for a key from before versioning |
| ObjectIndex.MarkerKeeps | internal/app/protection.go:120-137 | a delete marker becomes the newest version and hides the key |
| ObjectIndex.MarkerKeepsNewestExactly | internal/app/protection.go:120-137 | a delete marker hides the key as its newest version if and only if its time does not clash with that of the version shown, archived objects included |
| ObjectIndex.ShownIsNewest | internal/app/protection.go:120-126 | the current object of a consistent key is, once archived, its newest version |
| ObjectIndex.ArchivedFromBefore | internal/app/service.go:341-348 | an object from before versioning becomes the one version "null" with its own creation time |
| ObjectIndex.RestoreKeeps | internal/app/protection.go:233-266 | restoring the latest shows the newest version, or nothing if that is a marker or none is left |
| ObjectIndex.DeleteVersionKeeps | internal/app/protection.go:177-231 | deleting any version or marker leaves the newest remaining version as current |
| ObjectIndex.DeleteVersionIsLocal | internal/app/protection.go:177-231 | it removes exactly that version row and touches no other key |
| ObjectIndex.UpdateKeeps | internal/app/protection.go:41-78 | a protection update keeps current equal to newest |
| ObjectIndex.OtherKeyKeeps | internal/store/store.go:1016-1037 | a request on one key leaves every other key as consistent as it was |
| Objects.StepKeeps | internal/app/protection.go:104-266 | every request in order keeps every key of every versioned bucket consistent |
| Objects.CurrentIsAlwaysNewest | internal/app/protection.go:104-266 | over every run the current object of a key in a versioned bucket is its newest version, absent exactly when that is a marker or none is left, except an object from before versioning that has no versions |
| ObjectStore.Store.PutObjectRow | internal/store/store.go:1016-1037 | the upsert replaces the row but keeps its creation time |
| ObjectStore.Store.PutObjectVersion | internal/store/version_protection.go:13-22 | inserts a version, and does nothing on a conflict |
| ObjectStore.Store.DeleteObjectRow | internal/store/store.go:1095-1098 | removes the index row together with its attributes |
| ObjectStore.Store.ListObjectVersions | internal/store/version_protection.go:32-50 | the selection loop returns the matching rows by key and newest first, complete up to the limit |
| ObjectStore.Store.DeleteObjectReplicas | internal/app/service.go:527-558 | the loop asks every replica's provider to delete, uncharges those that did, and forgets all replicas of the key and no others |
| ObjectStore.Store.EnqueueObjectReplicas | internal/app/replication_queue.go:27-35 | one pending replica row per target provider, none for the primary |
| ObjectStore.Store.RunObjectReplication | internal/app/replication_queue.go:65-208 | however the row changed meanwhile, a run ends with the replica charged and marked stored exactly when its object is there and its provider stored it; a missing object leaves an empty failed row, a disabled provider a failed one, any other failure queues the row again or fails it, and none of them charges anything |
| ObjectStore.Store.RestoreVersionAsCurrent | internal/app/protection.go:250-266 | the version's bytes and attributes become the current object, queued for replication again |
| ObjectStore.Store.RestoreLatestObjectVersion | internal/app/protection.go:233-248 | the scan over the prefix listing restores exactly the key's newest version unless it is a marker |
| ObjectStore.Store.CleanupOverwrittenObject | internal/app/protection.go:339-349 | uncharges the previous object and deletes its bytes unless they were overwritten in place |
| ObjectStore.Store.PutWithin | internal/app/service.go:230-262 | a declared size above the maximum is refused before anything happens, a received one before anything is stored, and otherwise the put succeeds exactly when it is allowed and stored |
| ObjectStore.Store.Put | internal/app/service.go:234-386 | the put handler, from bucket creation and lock checks to index, version, cleanup and replica writes; it succeeds exactly when the request is allowed and a provider stored it; what that leaves is in the `StoredPuts` and `Outcomes` rows |
| StoredPuts.PutReads | internal/app/service.go:317-369 | after an accepted put the current object, and in a versioned bucket the drawn version, have the input's content, metadata and tags and the protection asked for, or the default mode in upper case with the default end |
| StoredPuts.PutCreates | internal/store/store.go:1016-1037 | an overwrite keeps the creation time of the key's row, a first put starts it |
| StoredPuts.AcceptedProtection | internal/app/service.go:246-258 | a put is allowed if and only if it asks for no protection, or the bucket has object lock and a mode asked for is one of the two with an end to come |
| StoredPuts.AcceptedExactly | internal/app/service.go:246-310 | a put is accepted exactly if its protection is and a known provider stored it, and leaves the tables alone otherwise |
| StoredPuts.PutUnderRetentionHolds | internal/app/service.go:317-369 | a version put under retention, asked for or by default, survives every run without the bypass flag until its end |
| StoredPuts.PutUnderHoldHolds | internal/app/service.go:317-369 | a version put under a legal hold survives every run that does not lift it |
| Outcomes.PutQueues | internal/app/service.go:373-379 | after a put each provider of the bucket's list but the one that stored it has a queued replica of the new size, other replicas of the key are gone, and no other key's are touched |
| Outcomes.PutStatus | internal/app/service.go:314-318 | the status shown says whether anything was queued |
| Outcomes.SizeLimitIsExact | internal/app/service.go:230-262 | an upload of at most the maximum is put as it is, a larger one leaves no object |
| Outcomes.BucketIsMade | internal/app/service.go:656-666 | a put to a missing bucket makes a plain one |
| ObjectStore.Store.CheckProtection | internal/app/service.go:246-258 | the bucket's default retention is applied first, with its mode in upper case, and protection is refused without object lock, with an unknown mode or with a past end |
| ObjectStore.Store.DeleteObjectWithOptions | internal/app/protection.go:104-165 | the delete handler with its marker, trash and immediate branches and the caller's result for each |
| ObjectStore.Store.DeleteNow | internal/app/protection.go:151-165 | the immediate delete changes the tables only when the adapter deleted the bytes |
| ObjectStore.Store.DeleteObjectVersion | internal/app/protection.go:177-231 | deletes one version: not found, locked, adapter failure and success, with restore of what is left |
| Outcomes.VersionDeleteGoes | internal/app/protection.go:167-231 | a version goes if and only if it has no hold, and its retention has run out or may be bypassed and is |
| Outcomes.ObjectDeleteGoes | internal/app/protection.go:104-175 | so does the current object |
| Outcomes.DeleteTells | internal/app/protection.go:104-231 | the caller is told success exactly when what was there is gone and not found exactly when it was not there, and any failure leaves the tables as they were |
| Outcomes.LockIsTold | internal/app/protection.go:167-175 | locked is told exactly for a hold or an unexpired retention that is not bypassed |
| Outcomes.MarkerIsLeft | internal/app/protection.go:120-137 | a delete in a versioned bucket leaves a marker under the drawn id and the object as a version with its content and protection |
| ObjectStore.Store.UpdateObjectProtection | internal/app/protection.go:41-78 | changes the protection of the named version and of the current object if it is that version, exactly when the bucket has object lock and the update is allowed |
| ObjectStore.Store.PutObjectRetention | internal/gateway/protection.go:149-174 | the retention request: mode and future date are checked before the version is read and updated, and it succeeds exactly when both and the update are allowed |
| ObjectStore.Store.PutObjectLegalHold | internal/gateway/protection.go:196-214 | the legal-hold request changes the hold of the version read and nothing else of its protection, and succeeds exactly when that update is allowed |
| ObjectStore.Store.RestoreTrashObject | internal/app/protection.go:299-319 | restores only where no object stands, without protection, and removes the trash row |
| ObjectStore.Store.PurgeTrashObject | internal/app/protection.go:321-337 | the trash row and its charge go exactly when the adapter deleted the bytes |
| Outcomes.TrashRoundTrip | internal/app/protection.go:138-319 | a delete to the trash and a restore give back content, metadata and tags, created at the time of the delete and unprotected; the trash row has them meanwhile, with the time to purge |
| Outcomes.RestoreOnlyWhereFree | internal/app/protection.go:299-310 | a restore never takes the place of an object |
| Outcomes.PurgeIsExact | internal/app/protection.go:321-337 | a purge removes its own row only, once the provider is reached |
| ObjectStore.Store.MigrateObject | internal/app/migration.go:185-263 | copy and move: charge the target, replace an earlier copy's charge, or repoint the index row and uncharge the source if its bytes were deleted; it succeeds exactly when the object is there and a known target stored the copy |
| Outcomes.MigrationIsExact | internal/app/migration.go:229-250 | a copy records the replica stored and leaves the object; a move points the object at the new place and keeps its attributes, versions, status and creation time |
| Outcomes.ReplicationIsExact | internal/app/replication_queue.go:65-208 | the end of a run leaves its row stored with its place, failed, or queued again, exactly as what was there, the provider and the attempts say, and no other row changed |
| Outcomes.ClaimAndRecovery | internal/store/store.go:1148-1197 | a claim takes a queued replica to running and a recovery takes it back |
| ObjectStore.ListingLimitExactly | internal/store/version_protection.go:32-36 | a version listing of 1 to 1000 rows is taken as asked |
| VersionBacking.StepBacked | internal/app/protection.go:41-319 | whatever the clock says, a request keeps the current object of every versioned key one of its versions, with its content and protection, if and only if it neither restores trash over versions nor moves a version's bytes |
| VersionBacking.CurrentIsAlwaysVersion | internal/app/protection.go:41-319 | so does every run of such requests, with clocks that clash or step back |
| StoreShape.StepTidy | internal/app/service.go:338-379 | under the same exact condition versions stay in versioned buckets, and replicas with bytes stay with current objects |
| ByteSafety.StepAsks | internal/app/protection.go:104-349 | which locations each request asks the providers to delete |
| ByteSafety.StepSafe | internal/app/protection.go:104-349 | a request asks for no bytes that a remaining row points to, and lets no two rows share bytes, if and only if what it stores goes to a place no other row points to, an immediate delete removes the last row of its bytes, and the provider carries the delete out |
| ByteSafety.BytesStay | internal/app/protection.go:104-349 | over every run of such requests no delete is ever asked for bytes that a row points to |
| ByteSafety.PurgeTakesNewBytes | internal/app/protection.go:138-150 | an object put again where its trashed predecessor still points loses its bytes at the purge |
| ByteSafety.OverwriteTakesNewBytes | internal/app/service.go:338-379 | an overwrite stored where one of the key's replicas points has its own bytes asked for |
| ByteSafety.FailoverTakesNewBytes | internal/app/service.go:267-379 | an object with one replica, and an overwrite that fails over to the replica's provider, for which that happens |
| ObjectLock.StepKeepsProtected | internal/app/protection.go:41-231 | one request keeps a version whose protection holds against it, row and bytes, and changes its protection only by an update of that version that does not shorten it |
| ObjectLock.RetentionExactly | internal/app/protection.go:49-64 | a retention update of a version gives it the mode and end asked for if and only if the end is no earlier, the old one has passed, or the old mode does not forbid it |
| ObjectLock.HoldExactly | internal/gateway/protection.go:196-214 | a hold update of a version always takes effect and leaves its retention alone |
| ObjectLock.RetentionIsChecked | internal/gateway/protection.go:149-174 | an update without one of the two modes or without an end to come changes nothing |
| ObjectLock.UpdatesNeedLock | internal/app/protection.go:41-48 | neither does one in a bucket without object lock |
| ObjectLock.UpdateKeepsRest | internal/app/protection.go:57-78 | an update changes protection only |
| ObjectLock.MoveKeepsExactly | internal/app/migration.go:236-249 | a kept version stays kept through a move if and only if it is not the object moved |
| ObjectLock.RetentionHolds | internal/app/protection.go:41-231 | until its retention ends a version keeps its row, no delete of its bytes is asked for and its end never moves earlier, through every sequence of requests without the bypass flag, replication, trash and copies included; clocks may clash or step back |
| ObjectLock.ComplianceHolds | internal/app/protection.go:54-175 | in compliance mode also through requests with the bypass flag, as long as no update gives the version the other mode |
| ObjectLock.LegalHoldHolds | internal/gateway/protection.go:196-214 | the same for a legal hold, bypass flag or not, as long as no request lifts it |
| Usage.ArchiveTotal | internal/app/service.go:338-348 | archiving moves an object's bytes from its index row to its version row, so they are counted once |
| Usage.UnchargeShare | internal/store/store.go:1236-1239 | taking off what a counter covers never meets the clamp at zero |
| Usage.DeleteVersionTotal | internal/app/protection.go:177-231 | deleting a version, with the restore it causes, takes exactly that version's bytes from the index |
| UsageExactness.DropReplicasExact | internal/app/service.go:527-558 | dropping a key's replicas keeps a provider's counter exact if and only if its replica there is absent, empty, or charged exactly when the provider can be reached, or the counter is zero already |
| UsageExactness.EnqueueExact | internal/app/replication_queue.go:27-35 | queueing a key again keeps the counter exact if and only if no charged replica is overwritten |
| UsageExactness.PutExact | internal/app/service.go:302-379 | a put keeps a counter exact if and only if the key is new or dropping its replicas, after the put's own charges, is exact |
| UsageExactness.DeleteExact | internal/app/protection.go:151-165 | the exact condition for a whole immediate delete, in any bucket, of objects with and without a version row, with any providers unreachable |
| UsageExactness.PermanentDeleteExact | internal/app/protection.go:120-165 | with finished replicas, a permanent delete keeps the counter exact if and only if the object has no version row or no bytes there |
| UsageExactness.PermanentDeleteHidesNewest | internal/app/protection.go:120-165 | it keeps current equal to newest if and only if the object has no version |
| UsageExactness.MarkerDeleteExact | internal/app/protection.go:120-137 | a delete by marker is exact if and only if dropping the replicas is |
| UsageExactness.TrashDeleteExact | internal/app/protection.go:138-150 | so is a delete to the trash |
| UsageExactness.MarkerRemovalExact | internal/app/protection.go:182-190 | removing a delete marker keeps the counter exact if and only if the version that is newest then is not replicated there or its replica is not charged yet |
| UsageExactness.VersionDeleteExact | internal/app/protection.go:191-231 | deleting a version keeps the counter exact if and only if it is not the one shown or dropping the key's replicas is exact |
| UsageExactness.RestoreTrashExact | internal/app/protection.go:299-319 | restoring trash keeps the counter exact if and only if the key has no version "null" or the row no bytes there |
| UsageExactness.PurgeTrashExact | internal/app/protection.go:321-337 | a purge keeps every counter exact, whether or not the provider can be reached |
| UsageExactness.CopyExact | internal/app/migration.go:229-235 | so does a copy, repeated or not |
| UsageExactness.MoveExact | internal/app/migration.go:236-249 | a move keeps the counter exact if and only if, for an object without a version row, its source could be reached or had no bytes there, and for one with a version row, as much is taken off as is added |
| UsageExactness.MoveKeepsNewestExactly | internal/app/migration.go:236-249 | a move of an object with a version keeps current equal to newest if and only if it changes nothing |
| UsageExactness.ReplicateExact | internal/app/replication_queue.go:65-208 | the end of a replica's run keeps the counter exact if and only if the row it writes over was not charged |
| UsageExactness.StepExactly | internal/store/store.go:1236-1239 | for every request and provider, the counter is exactly the bytes its rows store afterwards if and only if the request meets the condition for it |
| UsageExactness.QueuedReplicaUndercounts | internal/app/service.go:527-558 | two objects and a queued replica for which a delete leaves 9 on the counter of a provider that stores 10 bytes |
| UsageConservation.StepBalancedExactly | internal/store/store.go:1236-1239 | the same for all providers at once |
| UsageConservation.UsageStaysExact | internal/app/protection.go:104-349 | over every run of requests that meet it, each provider's counter is exactly the bytes of its current objects, versions counted once, trash and stored replicas |
| UsageConservation.UsageConserved | internal/app/protection.go:104-349 | so it is over every run whose adapter calls succeed, whose deletes and overwrites meet finished replicas, and which moves and deletes for good only objects without version rows |
| UsageInterleavings.StepExactly | internal/app/service.go:301-372 | between statements of any number of uploads and deletes, one statement keeps a counter equal to stored, committed-not-indexed and removed-not-taken-off bytes if and only if an index write or removal finds the bytes its request has read |
| UsageInterleavings.StepAllInformed | internal/app/service.go:238-242 | with one request at a time per key, what each has read stays true until it changes the row itself |
| UsageInterleavings.SerialRunsAreExact | internal/store/store.go:1236-1239 | so every interleaving of such requests keeps every counter exact, and it is what the index stores when none is in progress |
| UsageInterleavings.TwoDeletesRace | internal/app/protection.go:112-165 | two deletes that have both read an object take its bytes off twice |
| WorkQueue.JobTable.Create | internal/store/wasm_plugins.go:111-129 | a job is created exactly when its deduplication key is new |
| WorkQueue.JobTable.TryClaim | internal/store/store.go:884-897 | the compare-and-set of a claim changes one row from pending to running, and says so exactly then |
| WorkQueue.JobTable.Touch | internal/store/store.go:910-923 | a heartbeat stamps a running row and reports any other as not found |
| Heartbeats.TouchStamps | internal/store/store.go:910-923 | a heartbeat of the owner stamps its row with the clock and changes nothing else |
| Heartbeats.ClaimStamps | internal/store/store.go:884-897 | a claim stamps the row with its time, takes it to running and counts an attempt except of a delivery |
| Heartbeats.StepStamped | internal/store/store.go:884-923 | the stamp of every live worker's row is the time of its last claim or heartbeat |
| Heartbeats.BeatingExcludes | internal/app/workers.go:59-130 | workers that claim or beat at least every bound, a second or more inside the stale window, keep their stamps fresh and their jobs to themselves over every run, unless a replica is written over while it runs |
| Heartbeats.IdleStart | internal/app/hooks.go:23-25 | so from an idle table nothing else is asked of plugin jobs and deliveries |
| Heartbeats.EndOfExecution | internal/app/hooks.go:228-256 | what each verdict leaves: status, attempts, the time of the retry, and the stamp |
| Heartbeats.RetryIsDueThen | internal/app/hooks.go:228-256 | a retry is due a second after its time and not a second before |
| Heartbeats.CreatedIsDue | internal/store/wasm_plugins.go:111-129 | a new job has all its attempts and is due at once, a known one is left alone |
| Heartbeats.RewrittenIs | internal/store/store.go:1100-1130 | a queued replica is due at once with no attempt used, a copied one is finished and never claimed |
| Heartbeats.ClaimedOnlyWhenDue | internal/store/store.go:884-897 | only a pending job is claimed, and a delivery only once it is due |
| Heartbeats.ReplicaStartsAtMostFive | internal/app/replication_queue.go:27-35 | a replica that is not recovered is started at most five times before it is queued again |
| WorkQueue.JobTable.RecoverStale | internal/store/wasm_plugins.go:208-214 | exactly the running rows stamped before the cutoff become pending again, and their number is returned |
| WorkQueue.JobTable.Update | internal/store/store.go:925-936 | the row written at the end of an execution |
| WorkQueue.JobTable.Put | internal/store/store.go:1100-1130 | a replica's row is written whatever was there |
| WorkQueue.JobTable.Remove | internal/store/store.go:1214-1217 | a replica's row goes, whoever executes it |
| WorkQueue.JobTable.ListClaimable | internal/store/wasm_plugins.go:159-174 | the first five due jobs by due text, in order, without duplicates, and fewer only if no other is due |
| WorkQueue.JobTable.ClaimNext | internal/store/store.go:1148-1189 | with others acting between the list, each compare-and-set and the read after it, the claim is the loop over the first due jobs, and the caller gets the row as read; a replica whose row is gone by then is passed over |
| WorkQueue.ClaimsOnce | internal/store/wasm_plugins.go:159-188 | of plugin jobs and deliveries the loop claims at most one, from pending, and nothing else of the table is its doing |
| WorkQueue.ClaimsFirst | internal/store/wasm_plugins.go:159-188 | undisturbed, it claims the first due job |
| WorkQueue.ClaimedReplicaIsThere | internal/store/store.go:1170-1186 | a claimed replica is one whose row was still there to read |
| WorkQueue.GoneReplicaIsPassed | internal/store/store.go:1170-1186 | one whose row is gone by then does not keep the next listed one from being claimed |
| WorkerProtocol.FreshRowIsNotStale | internal/app/hooks.go:23-25 | a row stamped within a bound that is a second or more below the stale window is never stale, whatever its text |
| WorkerProtocol.StaleExactlyInClash | internal/store/store.go:902-908 | a row stamped no earlier than the cutoff is taken for stale if and only if the two clash as texts |
| WorkerProtocol.RecoveryExclusiveExactly | internal/store/store.go:902-908 | with heartbeats inside the stale window a recovery keeps one worker per job if and only if no live worker's stamp clashes with its cutoff |
| WorkerProtocol.FreshRowTaken | internal/store/store.go:902-908 | a live row stamped after the cutoff that a recovery takes |
| WorkerProtocol.TakenJobRunsTwice | internal/app/workers.go:59-130 | a job taken that way is executed by two workers as soon as another one claims it |
| WorkerProtocol.RewriteExclusive | internal/app/replication_queue.go:27-35 | writing over or removing a replica's row keeps one worker per job if and only if no live worker executes it |
| WorkerProtocol.RewrittenRunsTwice | internal/app/service.go:373-379 | an overwrite during replication lets a second worker execute the same replica at once |
| WorkerProtocol.RewrittenRunsAgain | internal/app/replication_queue.go:27-35 | a finished replica that is queued again is executed again |
| WorkerProtocol.StepExclusive | internal/app/workers.go:59-130 | with heartbeats inside the stale window every step keeps one worker per running job, except exactly a recovery in a clash and a rewrite of a replica that a live worker executes |
| WorkerProtocol.AlwaysExclusive | internal/app/workers.go:59-130 | over every timed run without those two no two workers ever execute one job at once |
| WorkerProtocol.MarginNeverDisrupts | internal/app/hooks.go:23-25 | with heartbeats a second or more inside the window only a rewritten replica can end the exclusion |
| WorkerProtocol.OthersNeverReplaced | internal/store/wasm_plugins.go:111-129 | plugin jobs and deliveries are never rewritten, so theirs then holds unconditionally |
| WorkerProtocol.FinishedForGood | internal/store/wasm_plugins.go:159-214 | a finished job keeps its row and is never started again, unless it is a replica whose row is rewritten or removed |
| WorkerProtocol.CrashedJobComesBack | internal/store/wasm_plugins.go:208-214 | a crashed worker's job is pending again after the first recovery a second past its stale time, with its attempts; a plugin job is due at once, others keep their due time |
| WorkerProtocol.CrashedJobRunsAgain | internal/store/store.go:863-908 | from crash to new execution: after that recovery any free worker whose clock is a second past the recovery and the due time can claim the job and then owns it |
| WorkerProtocol.DueJobCanStart | internal/store/store.go:863-900 | any free worker can claim a due pending job and then owns it |
| WorkerProtocol.RetriesAreBounded | internal/app/wasm_plugins.go:490-502 | over every timed run a job recovered r times since its row was written has been started at most max + r times since, and a waiting job still has an attempt left |
| WorkerProtocol.EndedBounded | internal/app/replication_queue.go:173-208 | every way an execution can end, success, replacement, retry, final and permanent failure, of deliveries, plugin jobs and replicas, respects the bound |
| RedisLeases.RedisCoordinator.TryAcquire | internal/coordination/redis.go:57-74 | default and truncated expiry, refusal of an expiry below a millisecond, and a lease exactly when no live entry exists |
| RedisLeases.RedisCoordinator.Release | internal/coordination/redis.go:48-96 | the script deletes the live entry of its own token and nothing else |
| RedisLeases.NeverTwoHolders | internal/coordination/redis.go:57-96 | no run gives one key to two unexpired holders |
| RedisLeases.LeaseSurvives | internal/coordination/redis.go:48-96 | until it expires a lease ends only by its own release, however late others release theirs |
| RedisLeases.ReleaseIsOwn | internal/coordination/redis.go:93-96 | a release changes the keys exactly when its token still owns the live entry, and ends nobody else's lease |
| RedisLeases.LeaseIsGiven | internal/coordination/redis.go:57-74 | a free key is given to the next caller for the whole milliseconds asked, or five seconds, and is free again after them |
| RedisLeases.LeaseIsRefused | internal/coordination/redis.go:57-74 | a held one is given to nobody else |
| MaintenanceLeases.LeaseTable.AcquireMaintenanceLease | internal/store/maintenance.go:8-17 | the conditional upsert takes the lease exactly when there is no row or its expiry text is before the clock's |
| MaintenanceLeases.LeaseTable.ReleaseMaintenanceLease | internal/store/maintenance.go:19-23 | backdates the row, whoever holds it |
| MaintenanceLeases.AcquireIsExact | internal/store/maintenance.go:8-17 | a name without a lease, or with one that ended a second ago, goes to the caller until the time asked; one that ends a second from now stays; no other name is touched |
| MaintenanceLeases.StolenExactlyInClash | internal/store/maintenance.go:8-17 | an unexpired lease is given away if and only if its expiry clashes with the clock |
| MaintenanceLeases.ReleasedIsFree | internal/store/maintenance.go:19-23 | backdating by a full second makes the lease free for every later caller |
| MaintenanceLeases.StepExclusive | internal/store/maintenance.go:8-23 | with holders that have not expired, a step keeps one holder per name if and only if it is not an acquisition in a clash |
| MaintenanceLeases.AlwaysOneHolder | internal/store/maintenance.go:8-23 | over every run without such clashes each name has at most one holder |
| MaintenanceLeases.MarginAvoidsClash | internal/store/maintenance.go:8-17 | holders that release a second before expiry never meet a clash |
| MaintenanceLeases.LateHolderReachable | internal/store/maintenance.go:8-17 | an expired holder and its successor can both believe they hold a lease |
| MaintenanceLeases.LateReleaseExactly | internal/store/maintenance.go:8-23 | after a release the next caller gets the lease, and shares it with an unexpired holder if and only if there was one besides the releasing worker |
| MaintenanceLeases.ReleaseSoundExactly | internal/store/maintenance.go:19-23 | a release leaves every unexpired holder its row if and only if nobody else holds the name unexpired |
| Embeddings.EncodeFloat32Vector | internal/store/embeddings.go:259-268 | the in-place loop writes the little-endian words, and fails exactly on a value that is not finite |
| Embeddings.DecodeFloat32Vector | internal/store/embeddings.go:270-282 | accepts exactly blobs of four bytes per dimension whose words are all finite |
| Embeddings.DecodeEncode | internal/store/embeddings.go:259-282 | decoding an encoded non-empty finite vector with its own length gives it back, from four bytes per value |
| Embeddings.EncodeDecode | internal/store/embeddings.go:259-282 | every accepted blob is the encoding of what was decoded |
| Embeddings.BetterIsTotal | internal/store/embeddings.go:358-363 | score descending then id ascending is a total order |
| Embeddings.WorstIndex | internal/store/embeddings.go:204-209 | one pass finds a row that no other row is worse than |
| Embeddings.Read | internal/store/embeddings.go:189-213 | reading one row more, scored or not, keeps the best rows read so far |
| Embeddings.Keep | internal/store/embeddings.go:200-213 | appending while there is room and then replacing the worst row keeps the best rows seen so far |
| Embeddings.SearchObjectEmbeddings | internal/store/embeddings.go:157-227 | refuses exactly the invalid queries; otherwise the streaming buffer with its final sort equals selecting, cutting at the candidate limit, sorting every passing row and taking the first results, for every table and every limit |
| Embeddings.BestOfMeaning | internal/store/embeddings.go:187-227 | those are passing rows, best first, and every passing row left out is worse than each one kept |
| Embeddings.AnswerMeans | internal/store/embeddings.go:157-227 | a search answers rows of the asked model, metric, dimensions and filters with a score not below the minimum, best first, and leaves out such a row only for a full answer of better ones |
| Embeddings.RefusedExactly | internal/store/embeddings.go:284-316 | a query is refused exactly for the named reasons |
| Embeddings.LimitsExactly | internal/store/embeddings.go:284-330 | the limits taken as asked and what stands for the others |
| Embeddings.LittleEndian | internal/store/embeddings.go:259-268 | the four bytes of each value, lowest first |
| Generations.EmbeddingStore.ReplaceObjectEmbeddings | internal/store/embeddings.go:32-114 | replaces one plugin's rows of one key exactly when the batch is valid and the generation is still current, with the error for each other case |
| Generations.ReplaceIsExact | internal/store/embeddings.go:58-104 | a valid current replacement leaves every row of another key or plugin as it was, and of its own exactly one per ordinal with that ordinal's values |
| Generations.RefusedExactly | internal/store/embeddings.go:33-131 | a batch is refused exactly without a key or plugin, above 128 embeddings, or for an embedding with one of the named faults |
| Generations.LateReplaceChangesNothing | internal/store/embeddings.go:58-65 | with another checksum or time in the index nothing is replaced |
| Generations.RemovalIsExact | internal/store/embeddings.go:133-136 | removing a key's vectors, by request, delete or invalidation, takes all of them and no other key's |
| Generations.UploadIsExact | internal/app/service.go:338-357 | after a whole upload the index has the new generation, an overwrite has left no vector of the key, and other keys have theirs |
| Generations.EmbeddingStore.InsertBatch | internal/store/embeddings.go:71-104 | one row per ordinal, under ids that do not collide |
| Generations.EmbeddingStore.DeleteObjectEmbeddings | internal/store/embeddings.go:133-136 | removes all rows of the key |
| Generations.StepGuarded | internal/app/service.go:349-357 | stale rows exist only inside an overwrite, between its index write and its invalidation |
| Generations.StoredVectorsAreFresh | internal/store/embeddings.go:32-114 | over every interleaving of uploads, deletes and writers, a key with no upload in progress has only vectors of its current checksum and time |
| Generations.RetryIsIdempotent | internal/store/embeddings.go:32-114 | retrying a replacement for one generation stores exactly the same rows, one for each ordinal |
| RowIdentity.IdentityInjective | internal/store/embeddings.go:80-82 | for fields without NUL the joined text tells any two rows apart |
| RowIdentity.BatchTextsApart | internal/store/embeddings.go:71-82 | within one batch the ordinal alone keeps the texts apart, whatever the other fields hold |
| RowIdentity.NulFieldsCollide | internal/store/embeddings.go:80-82 | with a NUL inside a field rows of two keys can share one text |
| Listing.Catalog.ListObjectsAfter | internal/store/store.go:1075-1093 | for any key pattern, the first matching keys after the cursor in ascending byte order, with the limit normalised to 1000 outside 1 to 1001 |
| Listing.PageCovers | internal/store/store.go:1075-1093 | only a full page leaves keys out, and only keys after its last |
| Listing.CursorResumes | internal/store/store.go:1075-1093 | listing after any listed key gives exactly the rest of the listing |
| Listing.ListObjects | internal/gateway/handler.go:358-411 | one response is truncated exactly when more keys are wanted, and then its token is its last key |
| Listing.PageSizeExactly | internal/gateway/handler.go:359-361 | a page size from 1 to 1000 is taken as asked, anything else as 1000 |
| Listing.FollowTokens | internal/gateway/handler.go:358-411 | following the tokens over a stable listing returns every wanted key once, in order, in full pages and one last page |
| Listing.IndexIsFirst | internal/gateway/handler.go:390-396 | the delimiter's first place in the rest of the key |
| Listing.GroupMeans | internal/gateway/handler.go:389-396 | a key is grouped exactly if the delimiter occurs after the prefix, and then by the key up to the end of its first occurrence |
| Listing.GroupPage | internal/gateway/handler.go:389-405 | the entries and sorted common prefixes of a response stand for every key of the page and are no more than its keys |
| Listing.GroupedWalk | internal/gateway/handler.go:358-411 | grouping page by page shows the same entries, once and in order, and the same common prefixes as grouping the whole listing |
| Scans.FullPage | internal/app/lifecycle.go:59-79 | a full page moves the cursor on and loses no key that had to be met |
| Scans.MigrationObjects | internal/app/migration.go:161-183 | whatever changes between pages, the collected objects are in order, each at most once from a page that had it at the source, with every matching object that was there throughout; the loop ends in a bounded key space |
| Scans.ExpireRule | internal/app/lifecycle.go:56-79 | a rule that deletes from the listing it scans still visits every spared matching key exactly once, tries exactly the expired ones, counts what it deleted and failed, and leaves all other spared keys |
| Scans.ExpirePage | internal/app/lifecycle.go:65-74 | within a page exactly the expired keys with the rule's own prefix whose deletion works are deleted |
| Scans.ExpiredKeysGo | internal/app/lifecycle.go:56-79 | a key that was there, spared, expired throughout and never failing is deleted, and one that never expired is kept |
| Scans.PurgeEndsExactly | internal/app/lifecycle.go:81-116 | the purge loop ends if and only if fewer rows than a page are due and cannot be purged, whatever the order of the rows |
| Scans.Trash.PurgeDue | internal/app/lifecycle.go:81-116 | in any number of rounds only rows that can be purged go; the loop ends in time if less than a page of the due rows is stuck, leaving exactly those, and never ends otherwise |

## Left out

- ObjectStore.Store.MigrateObject: the reservation at the target is that of `Ledger`; here only the size it commits appears.
- Objects.CurrentIsAlwaysNewest: assumes creation texts of a key strictly increase (the exact conditions are `ObjectIndex.PutKeepsNewestExactly` and `ObjectIndex.MarkerKeepsNewestExactly`), and leaves out what has its own exact theorem: moves of versions, permanent deletes of versions and trash restored over versions. The versioning of a bucket is fixed for the run, here and in the other theorems about runs of requests.
- ObjectLock.RetentionHolds: uploads, copies and replicas go to places that no other row points to (versioned uploads get a random path), and no object with a version row is moved; `issued` over-approximates, it holds a location as soon as a delete is asked for.
- ByteSafety.StepSafe: places are told apart by provider, remote bucket and remote key; a place that failed runs left without a row is not tracked.
- ObjectStore.Store.RunObjectReplication: the reservation at the target is that of `Ledger`, the claim and its recovery are steps of their own (`Objects.TurnReplica`), and the summary status shown on the object is not refreshed.
- ObjectStore.Store.CheckProtection: the mode is raised to upper case for ASCII letters only.
- UsageConservation.UsageConserved: each request is one atomic step; `UsageInterleavings` takes uploads and deletes apart.
- UsageInterleavings.SerialRunsAreExact: unversioned, unreplicated buckets without trash, and no crash between the statements of a request.
- Heartbeats.BeatingExcludes: workers are assumed to beat in time; one silent for longer loses its job by design.
- StoredPuts.PutReads: a key without an object has no attributes row, which the foreign key of the attributes table sees to.
- WorkerProtocol.RetriesAreBounded: retry delays are supplied as times.
- WorkQueue.JobTable.ClaimNext: replicas without a due time are rows whose due time has passed.
- RedisLeases.NeverTwoHolders: one server clock, and random tokens never repeat.
- MaintenanceLeases.LeaseTable.ReleaseMaintenanceLease: the time to live is given as the resulting expiry time, so no calendar addition is done.
- Scans.Trash.PurgeDue: which rows fail is fixed while the loop runs, and the rounds are bounded by a parameter because the loop need not end.
- Listing.Catalog.ListObjectsAfter: how the database matches a key against the pattern is a parameter.
- Listing.ListObjects: the base64 form of the token is not modelled.
- Embeddings.SearchObjectEmbeddings: the query's texts are given trimmed and its metric in lower case; a row's score is given, as a real or as none; distance computation, rounding and NaN are not modelled, and neither are the native vector indexes.
- Generations.EmbeddingStore.ReplaceObjectEmbeddings: rows are kept under the tuple of hashed fields; `RowIdentity` says when that is the hashed text, and the hash itself is taken to be free of collisions.
- Placement.Choose: costs are reals, so a cost that is not a number is not modelled.
- SQL isolation, engine errors, and foreign-key cascades on deleting a provider: every transaction is atomic and succeeds or is refused as its statements say.
- 64-bit overflow of counters: numbers are unbounded, except where a setting's text is parsed.
- Postgres collations: text is compared by bytes, as SQLite does.
- Rows with equal creation texts: the database leaves their order open, the model breaks the tie by id.
- Crashes in the middle of a request, other than a worker's.
- Default expiry and creation times, retention days and backoff arithmetic: the resulting times are inputs.
- White space other than ASCII when names are trimmed.
- HTTP, XML, authentication, encryption, adapters' bytes, the WASM runtime, cost planning, alerts, metrics, inventory and repair.
