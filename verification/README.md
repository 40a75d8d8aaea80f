# GeoTrack: verified models of its protocols and data structures

The project models the parts of GeoTrack that are more than wiring, and proves what they guarantee:

- `SqlStrings`, `Folders`, `FolderUpdates`, `FolderMoves`, `FolderDeletes`, `FolderService`: the folder
  tree, an adjacency list whose `path` and `level` columns are kept in step by `LIKE` and `replace`.
- `Outbox`, `RelayProtocol`, `Inbox`, `Delivery`, `RecordedHistory`: the transactional outbox, any number
  of relay workers, the inbox claim, and the versions recorded at the end of the pipeline.
- `Features`, `FeatureWrites`, `Versions`, `Reverts`: feature writes under optimistic and pessimistic
  locking, and reverts.
- `RefreshTokens`: refresh-token families. `TrackingBatches`: Kafka batches under redelivery.
  `StateStore`: the last-writer-wins Redis store. `Csv`, `CsvFiles`, `CsvImport`: the row scanner, whole
  files and the import loop.
  `CircuitBreaker` and `Retry`: the resilience helpers.

Code that updates tables or fields step by step is a class whose methods are proved equal to
specification functions on table values. Concurrent protocols are state machines over those same
functions, and their theorems hold for every run, that is for every sequence of enabled steps. One SQL
statement (or Lua script) is one atomic step; a `$transaction` stages its writes and commits or
disappears. Clocks, random draws, UUIDs, the outcome of an emit, a handler or a commit, and the order
of unordered query results are parameters or free choices of the environment. Identifiers that the
code draws at random never repeat. The database schema is the one in `prisma/schema.prisma`
(with an optional parent key set to null on delete and required folder keys restricting it); the
hand-written `XXX_add_catalog_schema` migration, which adds a depth check, a root-name key and other
delete rules, disagrees with it and is not followed.

Where the code does not do what it is meant to, the model keeps the code, a lemma gives an input, and a
theorem says exactly when it does:

- A folder can be moved under itself, and under a descendant whose id the client spells in upper case,
  for the cycle check compares spellings where SQL compares values. A folder with children can be moved
  to where its name is taken: the children's paths are then rewritten before the unique key refuses the
  row. An update keeps paths in step if and only if it is none of these (`UpdateKeepsPathsExactly`,
  `SelfMoveIsAccepted`, `DescendantSpelledOtherwise`, `ClashingMoveStrandsChildren`).
- A recursive delete that meets a folder referenced by an import or export job stops half way, and may
  strand children (`RecursiveDeleteSafeExactly`, `StoppedDeleteStrandsChild`).
- The depth limit is checked for the moved folder only (`DepthKeptExactly`, `DeepMoveBreaksLimit`).
- The `FeatureUpdated` consumer reads `versionNumber` and `name`, which the event does not carry; NULL
  then violates NOT NULL columns, so no update is ever recorded as a version, and a deletion is recorded
  only if the last version is the recorded creation or a revert (`HandledAtMostOnce`, `RecordedExactly`,
  `DeletionRecordedExactly`, `DeletionAfterRevertIsRecorded`). The creation is therefore all that a revert
  can ever restore (`RecordedVersionsAreTrue`, `RecordedRowsAreTrue`). Imported features are saved without
  an event, and nothing is recorded of them at all (`ImportedIsNeverRecorded`).
- A revert that races with another write silently replaces it, and comparing version numbers would not
  always tell (`RevertLosesNoWriteExactly`, `RevertCanLoseAnUpdate`, `RevertCanRewriteDeleted`,
  `RevertCanHideBehindNumber`). What `FeatureWrites` and `RecordedHistory` prove holds as long as no revert
  is disturbed, that is, as long as nothing writes its feature between its read and its commit.
- A replayed refresh token is not noticed once its row has been purged (`ReplayEndsFamilyExactly`,
  `ReplayWithinAWeekIsCaught`, `ReplayCanBeMissed`).
- The circuit breaker is documented to trip on consecutive failures; it counts failures since it was
  last closed (`TripsOnConsecutiveExactly`, `TripsWithoutConsecutiveFailures`).
- A CSV file is cut into lines before quotes are looked at, and blank lines are dropped although the
  standard gives them a meaning (`FileRoundTripExactly`, `QuotedBreakIsCut`, `BlankRowVanishes`). The rows
  of a file with only a geometry column vanish (`NothingReportedExactly`, `GeometryOnlyRowVanishes`).
- A device stays in the geo index of a region it has left and after its hash has expired, and a latitude
  that GEOADD refuses leaves the old position under the new hash (`GeoFollowsHashExactly`,
  `GhostsExactly`, `OldRegionGoesStale`, `ExpiredStaysIndexed`, `HighLatitudeGoesStale`).
- With a jitter above 1 a retry delay can be shorter than the one before (`NeverShrinksExactly`,
  `LargeJitterCanShrink`).

## Model

| member | source | states |
|---|---|---|
| SqlStrings.LikeIsPrefixTest | src/modules/catalog/infrastructure/database/folder.prisma.ts:106-109 | for a path without wildcard characters, `LIKE path/%` is exactly the test that `path/` is a prefix |
| SqlStrings.ReplacePrefixOnly | src/modules/catalog/infrastructure/database/folder.prisma.ts:194-198 | `replace`, which rewrites every occurrence, changes only a leading prefix whose first letter never recurs |
| Folders.LikeSelectsDescendants | src/modules/catalog/infrastructure/database/folder.prisma.ts:101-111 | the LIKE query returns exactly the strict descendants by transitive parent links |
| Folders.RewriteChangesPrefixOnly | src/modules/catalog/infrastructure/database/folder.prisma.ts:188-203 | the subtree UPDATE changes exactly the strict descendants, and in them only the path prefix and the level |
| Folders.Acyclic | src/modules/catalog/domain/entities/folder.entity.ts:47-105 | when paths agree with parents, no folder is its own ancestor |
| Folders.SpellingsOfOneValue | src/modules/catalog/application/use-cases/update-folder.use-case.ts:57-61 | a uuid spelled in any mixture of cases has one value |
| FolderUpdates.CreateAcceptedExactly | src/modules/catalog/application/use-cases/create-folder.use-case.ts:16-70 | a create succeeds iff the parent, in whatever case its id is spelled, exists and is shallow enough, no sibling has the name and the id is new, and says which check failed; it adds that one folder, every column told, and nothing else |
| FolderUpdates.CreateKeepsInv | src/modules/catalog/application/use-cases/create-folder.use-case.ts:39-49 | every create keeps paths, levels and the unique key |
| FolderUpdates.UpdateAcceptedExactly | src/modules/catalog/application/use-cases/update-folder.use-case.ts:16-67 | an update succeeds iff, told by the tree: right version, no sibling with the new name, the target exists by value, is not spelled like a descendant and is shallow enough, key free at the target |
| FolderUpdates.UpdateRefusedExactly | src/modules/catalog/application/use-cases/update-folder.use-case.ts:21-67 | which check refuses an update, told by the tree in the order of the code; nothing has been written then, unless the unique key stopped a move |
| FolderUpdates.UpdateWritesExactly | src/modules/catalog/application/use-cases/update-folder.use-case.ts:33-110 | an accepted update always writes the row: version up by one, exactly the given fields, and for a move parent, path and level below the target; other rows keep all but path and level; the caller gets the stored row |
| FolderUpdates.UpdateKeepsPathsExactly | src/modules/catalog/application/use-cases/update-folder.use-case.ts:50-110 | an update keeps every path and level in step with the parents iff it is not a move under itself, under a descendant spelled otherwise, or of a folder with children to where its name is taken; the unique key is always kept |
| FolderUpdates.StrandedChildrenBreak | src/modules/catalog/application/use-cases/update-folder.use-case.ts:76-82 | rewriting the subtree without the folder's own row always breaks a child's path |
| FolderMoves.MoveTouchesOnlySubtree | src/modules/catalog/application/use-cases/update-folder.use-case.ts:69-93 | a move leaves rows outside the subtree alone, keeps relative paths, relative levels and parents inside, and the subtree keeps its members |
| FolderMoves.MoveBackRestores | src/modules/catalog/application/use-cases/update-folder.use-case.ts:69-93 | moving back is accepted iff the old parent is still shallow enough, and then restores the whole table but the version counter |
| FolderMoves.DepthKeptExactly | src/modules/catalog/application/use-cases/update-folder.use-case.ts:61-67 | the depth limit survives an accepted move iff every descendant, as far below the new place as below the old one, is within it |
| FolderMoves.DeepMoveBreaksLimit | src/modules/catalog/application/use-cases/update-folder.use-case.ts:61-67 | a table built by creates alone and an accepted, safe move in it that puts a folder below the limit |
| FolderMoves.SelfMoveIsAccepted | src/modules/catalog/application/use-cases/update-folder.use-case.ts:56-59 | a concrete move under itself is accepted and breaks the invariant |
| FolderMoves.DescendantSpelledOtherwise | src/modules/catalog/application/use-cases/update-folder.use-case.ts:56-64 | a concrete move under a descendant whose id is spelled in upper case is accepted and leaves a cycle |
| FolderMoves.ClashingMoveStrandsChildren | src/modules/catalog/application/use-cases/update-folder.use-case.ts:76-110 | a concrete name-clashing move fails after stranding a child |
| FolderDeletes.DeleteRemovesExactlySubtree | src/modules/catalog/application/use-cases/delete-folder.use-case.ts:14-56 | an allowed delete succeeds iff no job references the subtree; it removes exactly the folder and its descendants, detaches exactly their live features, in any listing order |
| FolderDeletes.DeleteAnswersExactly | src/modules/catalog/application/use-cases/delete-folder.use-case.ts:14-56 | when a delete is refused, and that it then changes nothing; otherwise it answers the number of live features the folder held |
| FolderDeletes.DeletionKeepsPathsExactly | src/modules/catalog/infrastructure/database/folder.prisma.ts:181-186 | deleting a set of folders keeps paths iff no survivor loses its parent |
| FolderDeletes.RecursiveDeleteSafeExactly | src/modules/catalog/application/use-cases/delete-folder.use-case.ts:31-53 | a recursive delete keeps every path right in every listing order, each id listed once, iff no job references a folder below, or every folder below that has children is referenced; a reference to the folder itself does no harm |
| FolderDeletes.StoppedDelete | src/modules/catalog/application/use-cases/delete-folder.use-case.ts:40-50 | a delete stopped at the first referenced descendant has removed exactly those listed before it and detached the features of those, of it and of the folder |
| FolderDeletes.StoppedDeleteStrandsChild | src/modules/catalog/application/use-cases/delete-folder.use-case.ts:40-50 | a concrete stopped delete that breaks the invariant |
| FolderDeletes.RunKeepsInv | src/modules/catalog/domain/entities/folder.entity.ts:47-105 | after every run of creates, safe updates and deletes that cannot strand a folder, completed or stopped, paths, levels and names are right and the tree is acyclic |
| FolderService.FolderPrismaRepository.FindDescendantIds | src/modules/catalog/infrastructure/database/folder.prisma.ts:101-111 | lists exactly the rows under the folder's path, nothing for a missing folder |
| FolderService.FolderPrismaRepository.RemoveAllFeatures | src/modules/catalog/application/use-cases/delete-folder.use-case.ts:32-37 | the loop of single UPDATEs detaches exactly the folder's live features |
| FolderService.CreateFolderUseCase.Execute | src/modules/catalog/application/use-cases/create-folder.use-case.ts:16-70 | the statements compute the create specification |
| FolderService.UpdateFolderUseCase.Execute | src/modules/catalog/application/use-cases/update-folder.use-case.ts:16-111 | the statements, with any choice of returned rows, compute the update specification |
| FolderService.DeleteFolderUseCase.Execute | src/modules/catalog/application/use-cases/delete-folder.use-case.ts:14-56 | the nested loops compute the delete specification for the order in which descendants came back |
| Outbox.OutboxService.PublishEvent | libs/core/src/outbox/outbox.service.ts:72-92 | adds one unpublished row under the next id, with no retries used of three |
| Outbox.OutboxService.FetchUnpublished | libs/core/src/outbox/outbox.service.ts:100-115 | returns the lowest unpublished, unlocked ids in order, up to the limit |
| Outbox.OutboxService.DeadLetterEvent | libs/core/src/outbox/outbox.service.ts:138-164 | moves the row to the dead-letter table with its retry count |
| Outbox.OutboxRelayService.RelayEvents | libs/core/src/outbox/outbox-relay.service.ts:32-136 | one round fetches at most 50 of the lowest rows and, committed, leaves each published, counted or dead-lettered by how its emit ended, told row by row; lost, it rolls back everything but what it emitted; it never stays marked as relaying |
| Outbox.RoundLowersOwed | libs/core/src/outbox/outbox-relay.service.ts:40-119 | every committed non-empty round lowers the emits still owed, whichever emits throw |
| Outbox.RelayDrains | libs/core/src/outbox/outbox-relay.service.ts:40-119 | as many committed rounds as emits are owed empty the outbox; dead letters have spent all retries |
| Outbox.FailingEventIsBuriedExactly | libs/core/src/outbox/outbox.service.ts:138-185 | an event whose every emit throws is counted up each round and moves to the dead letters in exactly the round after its retries are spent, never to be fetched again |
| RelayProtocol.EveryEventInOnePlace | libs/core/src/outbox/outbox-relay.service.ts:32-162 | in every interleaving of writers, workers, aborts and cleanup each saved event is unchanged in exactly one place, dead letters are unique, published and cleaned events were emitted, and no row is held twice |
| RelayProtocol.CleanedADayAfterPublishing | libs/core/src/outbox/outbox-relay.service.ts:142-162 | in every interleaving a cleaned event was published by some round more than a day before, and a cleanup takes a published event iff that holds by then |
| RelayProtocol.DeadAfterFourFailures | libs/core/src/outbox/outbox.service.ts:138-185 | in every interleaving a retry count is the number of committed rounds whose emit of the event threw, and an event is a dead letter exactly after the fourth |
| RelayProtocol.UndisturbedRound | libs/core/src/outbox/outbox-relay.service.ts:39-126 | an idle worker can fetch, emit and commit any batch, whichever emits throw, and leaves every row as it should be |
| RelayProtocol.NothingBlocks | libs/core/src/outbox/outbox-relay.service.ts:39-162 | a worker that dies leaves the tables unchanged and its rows free; writers and cleanup never wait |
| Inbox.InboxService.Claim | libs/core/src/outbox/inbox.service.ts:97-114 | inserts the row iff there was none |
| Inbox.InboxService.Finish | libs/core/src/outbox/inbox.service.ts:116-134 | keeps the claim of a handler that returned, gives it back otherwise |
| Inbox.MutualExclusion | libs/core/src/outbox/inbox.service.ts:92-135 | in every run at most one call per event works or has succeeded, its row is there, and no release removes another call's row |
| Inbox.SuccessIsFinal | libs/core/src/outbox/inbox.service.ts:92-135 | once a call succeeded, no continuation lets another call for that event succeed |
| Inbox.OneCallExactly | libs/core/src/outbox/inbox.service.ts:92-135 | one call from any state: skipped if the row is there, else it claims it, keeps it on success, gives it back on failure, and keeps it if it dies |
| Versions.CreateVersionUseCase.CreateInitialVersion | src/modules/versioning/application/use-cases/create-version.use-case.ts:36-52 | records version 1 under the unique key or fails |
| Versions.CreateVersionUseCase.CreateDeletionVersion | src/modules/versioning/application/use-cases/create-version.use-case.ts:73-98 | copies the last snapshot one version up, records nothing if there is none, fails if the number is taken |
| Delivery.VersioningConsumer.Handle | src/modules/versioning/presentation/versioning.consumer.ts:44-95 | one delivery records its version once, is skipped as a duplicate, or fails and leaves everything as it was |
| Delivery.HandledAtMostOnce | src/modules/versioning/presentation/versioning.consumer.ts:44-60 | however often rounds abort and re-emit, at most one call per saved event succeeds; a successful creation left exactly its snapshot as version 1; no update ever succeeds |
| Delivery.ClaimedCallWrites | src/modules/versioning/presentation/versioning.consumer.ts:44-95 | a claimed call writes exactly the record of its event, if it can be recorded, and only then can succeed |
| Delivery.ClaimedCallCanFail | libs/core/src/outbox/inbox.service.ts:116-134 | a claimed call can always fail, give its claim back and record nothing |
| Delivery.EmitStartsCall | libs/core/src/outbox/outbox-relay.service.ts:67-74 | an emit that reaches the consumer starts a call under the event's correlation id |
| Delivery.RecordedVersionsAreTrue | src/modules/geometry/infrastructure/persistence/prisma-feature.repository.ts:58-101 | with deliveries and reverts of any kind in any order: version 1 is the feature's one saved creation event, every other recorded version is a revert or a deletion and repeats that snapshot, and no update is recorded |
| Delivery.RunKeepsInv | libs/core/src/outbox/outbox-relay.service.ts:67-119 | the pipeline invariant holds in every run and recorded versions never change |
| RecordedHistory.RecordedRowsAreTrue | src/modules/versioning/presentation/versioning.consumer.ts:44-95 | writers, undisturbed reverts and pipeline as one system: every row of the table of versions equals the committed version of its number, or is a deletion after the last; all hold the snapshot of the creation |
| RecordedHistory.RecordedExactly | src/modules/versioning/infrastructure/persistence/prisma-feature-version.repository.ts:86-104 | of a feature's versions exactly the first, once its creation has been handled, and those made by reverts are recorded |
| RecordedHistory.DeletionRecordedExactly | src/modules/versioning/application/use-cases/create-version.use-case.ts:73-98 | a deletion is recorded only after a recorded last version: always once handled if a revert made that version, only after the creation if it is the first, never after an update |
| RecordedHistory.DeletionStepExactly | src/modules/versioning/application/use-cases/create-version.use-case.ts:73-98 | when a handler writes a deletion its number is free, and it is recorded iff the last version is recorded by then |
| RecordedHistory.ImportedIsNeverRecorded | src/modules/catalog/application/use-cases/import-file.use-case.ts:81-101 | of an imported feature, inserted without an event, no version is ever recorded |
| RecordedHistory.UndisturbedRevertSucceeds | src/modules/versioning/application/use-cases/revert-feature.use-case.ts:28-50 | the number that an undisturbed revert takes is always free |
| RecordedHistory.CommitCanBeSaved | src/modules/geometry/infrastructure/persistence/prisma-feature.repository.ts:61-101 | every commit with a fresh correlation id can be saved in the outbox: composing the two systems excludes nothing |
| RecordedHistory.PartsMoveFreely | src/modules/geometry/infrastructure/persistence/prisma-feature.repository.ts:61-241 | writers and pipeline take their own steps as if alone; a commit saves its event, under the id it drew, at the same moment |
| RecordedHistory.RevertWritesBoth | src/modules/versioning/infrastructure/persistence/prisma-feature-version.repository.ts:64-104 | a revert writes its target's recorded snapshot into the feature and into the version row of the next number |
| RecordedHistory.DeletionAfterRevertIsRecorded | src/modules/versioning/application/use-cases/create-version.use-case.ts:73-98 | create, update, revert, delete: the deletion is recorded although an update came in between |
| Features.Feature.UpdateInfo | src/modules/geometry/domain/entities/feature.entity.ts:94-110 | changes exactly the given fields and the editor |
| Features.Feature.UpdateGeometry | src/modules/geometry/domain/entities/feature.entity.ts:112-121 | accepts exactly geometries of the declared type |
| Features.PrismaFeatureRepository.FindById | src/modules/geometry/infrastructure/persistence/prisma-feature.repository.ts:26-55 | loads exactly the stored live row |
| Features.PrismaFeatureRepository.Create | src/modules/geometry/infrastructure/persistence/prisma-feature.repository.ts:64-101 | stores version 1 and one creation event |
| Features.PrismaFeatureRepository.Save | src/modules/geometry/infrastructure/persistence/prisma-feature.repository.ts:102-174 | iff the live row is at the preceding version, writes the entity and announces its new version number, geometry, properties and editor |
| Features.PrismaFeatureRepository.Delete | src/modules/geometry/infrastructure/persistence/prisma-feature.repository.ts:196-241 | marks the row deleted and announces it iff it is live at the expected version |
| Features.UpdateFeatureUseCase.Execute | src/modules/geometry/application/use-cases/update-feature.use-case.ts:16-49 | undisturbed, writes the stored row with exactly the patch's fields replaced and announces it under the next version number, or reports which check failed and changes nothing |
| FeatureWrites.SameVersionSameRow | src/modules/geometry/infrastructure/persistence/prisma-feature.repository.ts:140-156 | as long as no revert is disturbed, a matching version number means the client's copy is the current row |
| FeatureWrites.NoLostUpdate | src/modules/geometry/application/use-cases/update-feature.use-case.ts:16-49 | in every run with undisturbed reverts versions are 1, 2, ... and each is the previous committed one with its own client's patch applied or a snapshot restored |
| FeatureWrites.UndisturbedSave | src/modules/geometry/application/use-cases/update-feature.use-case.ts:16-49 | an undisturbed save goes through iff the feature is live, at the expected version and of the geometry's type, and then writes that row and one event |
| FeatureWrites.UndisturbedCreate | src/modules/geometry/infrastructure/persistence/prisma-feature.repository.ts:64-101 | an undisturbed creation goes through iff the feature is new, and writes that row and one event |
| FeatureWrites.UndisturbedDelete | src/modules/geometry/infrastructure/persistence/prisma-feature.repository.ts:196-241 | an undisturbed deletion goes through iff the feature is live at the expected version, and leaves its history as it was |
| FeatureWrites.SaveBeginsExactly | src/modules/geometry/infrastructure/persistence/prisma-feature.repository.ts:140-156 | a client with a copy can write iff nobody else is writing the feature and it is live and still at the copy's number |
| FeatureWrites.RunKeepsInv | src/modules/geometry/infrastructure/persistence/prisma-feature.repository.ts:203-227 | committed versions stay, and a deleted feature never changes again, as long as no revert is disturbed |
| FeatureWrites.OutboxMirrorsHistory | src/modules/geometry/infrastructure/persistence/prisma-feature.repository.ts:61-241 | in every run with undisturbed reverts a feature's events by outbox id are its creation, its edits in order, each with number, geometry, properties and editor of its version, and, iff deleted, one deletion naming the last version; imports and reverts leave none |
| Versions.PrismaFeatureVersionRepository.ExecuteRevertTransaction | src/modules/versioning/infrastructure/persistence/prisma-feature-version.repository.ts:55-105 | both writes happen or, when the number is taken, neither |
| Versions.RevertFeatureUseCase.Execute | src/modules/versioning/application/use-cases/revert-feature.use-case.ts:18-50 | undisturbed, installs the target snapshot in the feature and in one new version, or names the failure and changes nothing |
| Reverts.VersionsAreAppendOnly | src/modules/versioning/infrastructure/persistence/prisma-feature-version.repository.ts:86-104 | no version row is ever changed or removed, in any run |
| Reverts.OneRevertPerBase | prisma/schema.prisma:158 | of the reverts started from one version at most one commits, whatever else is written, and its version equals its target |
| Reverts.UndisturbedRevert | src/modules/versioning/application/use-cases/revert-feature.use-case.ts:18-50 | an undisturbed revert goes through iff the target is recorded, the feature live and the number free, and writes the snapshot in both places |
| Reverts.RevertLosesNoWriteExactly | src/modules/versioning/infrastructure/persistence/prisma-feature-version.repository.ts:64-104 | over whole runs with the repository's writes: a committing revert installs the target it read over the last row written, and no other write of the feature came in between iff the version and the deletion mark are as read and no further revert of it is recorded |
| Reverts.RevertCanLoseAnUpdate | src/modules/versioning/application/use-cases/revert-feature.use-case.ts:28-40 | a concrete run in which a revert loses a rename |
| Reverts.RevertCanRewriteDeleted | src/modules/geometry/infrastructure/persistence/prisma-feature.repository.ts:220-227 | a concrete run in which a revert rewrites a feature deleted meanwhile, although the version number has not changed |
| Reverts.RevertCanHideBehindNumber | src/modules/versioning/infrastructure/persistence/prisma-feature-version.repository.ts:64-84 | a concrete run in which a revert sets the number back, so that another finds the live feature at the number it read and still overwrites a write |
| RefreshTokens.RefreshTokenUseCase.Execute | src/modules/identity/application/use-cases/refresh-token.use-case.ts:42-106 | which error a refresh reports, in the order of the checks, and what each outcome leaves in the table, the new token's owner, family and expiry included |
| RefreshTokens.RefreshTokenUseCase.IssueForLogin | src/modules/identity/application/use-cases/refresh-token.use-case.ts:111-130 | stores one live token of a new family |
| RefreshTokens.LogoutUseCase.Execute | src/modules/identity/application/use-cases/logout.use-case.ts:21-31 | revokes the whole family of a stored token |
| RefreshTokens.PrismaRefreshTokenRepository.PurgeExpired | src/modules/identity/infrastructure/persistence/prisma-refresh-token.repository.ts:57-70 | removes exactly the expired and the long-revoked tokens and counts them |
| RefreshTokens.OneLiveTokenPerFamily | src/modules/identity/application/use-cases/refresh-token.use-case.ts:78-99 | in every run a family has one owner and at most one unrevoked token |
| RefreshTokens.RefreshAcceptedExactly | src/modules/identity/application/use-cases/refresh-token.use-case.ts:42-106 | a refresh succeeds iff the token is live, unexpired and its account active; the new token is then the family's only live one |
| RefreshTokens.LoginLastsExactly | src/modules/identity/application/use-cases/refresh-token.use-case.ts:111-130 | a login's token can be exchanged exactly until its lifetime is over |
| RefreshTokens.EndsExactly | src/modules/identity/application/use-cases/logout.use-case.ts:21-31 | a family is ended exactly by a logout, a reuse or a refresh of an inactive account, and then has no live token |
| RefreshTokens.EndedFamiliesStayEnded | src/modules/identity/application/use-cases/refresh-token.use-case.ts:51-76 | a family ended by logout, reuse or suspension never has a live token again |
| RefreshTokens.ReplayEndsFamilyExactly | src/modules/identity/application/use-cases/refresh-token.use-case.ts:56-64 | a replayed token ends its family iff its row is still stored (or nothing was live) |
| RefreshTokens.ReplayCanBeMissed | src/modules/identity/infrastructure/persistence/prisma-refresh-token.repository.ts:57-70 | a concrete run in which a rotated token expires, is purged and then replayed while its family stays live |
| RefreshTokens.ReplayWithinAWeekIsCaught | src/modules/identity/infrastructure/persistence/prisma-refresh-token.repository.ts:57-70 | a replay before expiry and within a week of the rotation is always caught |
| TrackingBatches.TrackingBatchProcessor.ProcessBatch | src/modules/tracking/application/consumers/tracking-batch.processor.ts:19-96 | ingests the whole batch, under each new key longitude, latitude and speed of its first message, or, if a value does not parse, nothing, and resolves no offset |
| TrackingBatches.RedeliveryIsInvisible | src/modules/tracking/application/consumers/tracking-batch.processor.ts:48-72 | redelivering any stretch that starts inside what was ingested equals one pass up to the furthest point |
| TrackingBatches.TableIsOnePassOverPrefix | src/modules/tracking/application/consumers/tracking-batch.processor.ts:31-96 | after any schedule the table is one pass over a prefix that covers the committed offset and skips no malformed value |
| TrackingBatches.FreshConsumerFinishes | src/modules/tracking/application/consumers/tracking-batch.processor.ts:19-96 | after any schedule a consumer that starts afresh and reads to the end of a log that parses leaves all of it ingested and committed |
| TrackingBatches.FetchEndsExactly | src/modules/tracking/application/consumers/tracking-batch.processor.ts:31-57 | a fetched stretch is ingested iff all of it parses, and otherwise refused without a trace |
| TrackingBatches.FirstPointWins | src/modules/tracking/application/consumers/tracking-batch.processor.ts:38-66 | one pass leaves under each device and instant what was there, or else longitude, latitude and speed of its first message |
| StateStore.StateStoreService.UpdateCurrentStateBatch | src/modules/tracking/infrastructure/state-store.service.ts:40-72 | a batch is its messages upserted one after the other, each writing the hash even if its position cannot be indexed |
| StateStore.BatchIsArrivals | src/modules/tracking/infrastructure/state-store.service.ts:52-72 | a batch does what its messages do that arrive one by one |
| StateStore.LastWriterWins | src/modules/tracking/infrastructure/state-store.service.ts:11-28 | a device is present iff a message with a non-negative time came since its last expiry; there is then a newest, last arrival first, and the device shows it |
| StateStore.GeoIndexExactly | src/modules/tracking/infrastructure/state-store.service.ts:18-23 | a device is in a region's index iff some message that won on arrival named the region with an indexable position; the entry is the last such message's |
| StateStore.GeoFollowsHashExactly | src/modules/tracking/infrastructure/state-store.service.ts:18-23 | an entry stems from the message the hash shows iff that message named the region and can be indexed; every other entry is stale and there iff an earlier winner put it there |
| StateStore.OwnRegionExactly | src/modules/tracking/infrastructure/state-store.service.ts:22-23 | in the region of the shown message the indexed position is that message's iff it can be indexed |
| StateStore.GhostsExactly | src/modules/tracking/infrastructure/state-store.service.ts:19-20 | a device without a hash is indexed iff nothing usable came since its last expiry and one of its messages once won there |
| StateStore.OldRegionGoesStale | src/modules/tracking/infrastructure/state-store.service.ts:50-51 | a concrete run leaves a moved device in its old region |
| StateStore.HighLatitudeGoesStale | src/modules/tracking/domain/coordinates.vo.ts:7-11 | a concrete run shows a latitude the domain accepts over an old indexed position |
| StateStore.ExpiredStaysIndexed | src/modules/tracking/infrastructure/state-store.service.ts:20-23 | a concrete run leaves an expired device in the index |
| StateStore.OrderDoesNotMatter | src/modules/tracking/infrastructure/state-store.service.ts:11-28 | with distinct times and no expiry, arrival order does not matter |
| Csv.ParseCsvRow | src/modules/catalog/infrastructure/file-parsers/csv.parser.ts:126-149 | the loop computes the recursive scan |
| Csv.RowRoundTrip | src/modules/catalog/infrastructure/file-parsers/csv.parser.ts:126-149 | scanning the RFC 4180 section 2 encoding of any non-empty field list, with any optional quoting, gives the list back |
| CsvFiles.LinesRoundTripExactly | src/modules/catalog/infrastructure/file-parsers/csv.parser.ts:21-24 | lines survive joining and splitting iff none holds a line feed |
| CsvFiles.FileRoundTripExactly | src/modules/catalog/infrastructure/file-parsers/csv.parser.ts:21-24 | a table written by the standard, with any quoting, is read back iff no field holds a line feed and no row is one unquoted field of blanks |
| CsvFiles.FileGivesVisibleRows | src/modules/catalog/infrastructure/file-parsers/csv.parser.ts:22-24 | without line feeds the file gives back exactly the rows that are not blank lines |
| CsvFiles.TrimExactly | src/modules/catalog/infrastructure/file-parsers/csv.parser.ts:24-24 | trimming takes all white space off both ends and nothing else |
| CsvFiles.QuotedBreakIsCut | src/modules/catalog/infrastructure/file-parsers/csv.parser.ts:21-24 | every one-field row with a line break inside, which the standard allows, comes back as two rows |
| CsvFiles.BlankRowVanishes | src/modules/catalog/infrastructure/file-parsers/csv.parser.ts:24-24 | a row of one empty field is dropped |
| CsvImport.FindColumn | src/modules/catalog/infrastructure/file-parsers/csv.parser.ts:44-52 | finds the first header with one of the names, or -1 iff there is none |
| CsvImport.Parse | src/modules/catalog/infrastructure/file-parsers/csv.parser.ts:18-124 | statement by statement: a short file, missing columns, or the points and errors of all data rows |
| CsvImport.RowsAccountedForExactly | src/modules/catalog/infrastructure/file-parsers/csv.parser.ts:67-109 | points and errors come in row order, carry the numbers of their rows' latitude and longitude cells or name what is wrong with them, and count all data rows iff both coordinate columns exist or every row has the wrong length |
| CsvImport.NothingReportedExactly | src/modules/catalog/infrastructure/file-parsers/csv.parser.ts:88-103 | an import reports nothing at all iff the file has data rows, all of the right length, and no complete latitude and longitude pair beside its spatial column |
| CsvImport.RefusedExactly | src/modules/catalog/infrastructure/file-parsers/csv.parser.ts:26-65 | a file is refused as short iff it has fewer than two rows, and for its columns iff it has neither a latitude nor a geometry header |
| CsvImport.HeaderNameIgnores | src/modules/catalog/infrastructure/file-parsers/csv.parser.ts:44-52 | header names are compared without regard to case or surrounding white space |
| CsvImport.GeometryOnlyRowVanishes | src/modules/catalog/infrastructure/file-parsers/csv.parser.ts:54-103 | the row of a file with a geometry column only yields neither point nor error |
| CsvImport.WrittenTableIsImported | src/modules/catalog/infrastructure/file-parsers/csv.parser.ts:18-124 | a table written by the standard, with both coordinate columns and nothing that the cut destroys, gives one point or error for every data row |
| CircuitBreaker.CircuitBreakerService.Begin | libs/core/src/resilience/circuit-breaker.service.ts:39-60 | admits or refuses a call and moves to half open |
| CircuitBreaker.CircuitBreakerService.OnSuccess | libs/core/src/resilience/circuit-breaker.service.ts:72-79 | closes a tripped circuit and leaves a closed one alone |
| CircuitBreaker.CircuitBreakerService.OnFailure | libs/core/src/resilience/circuit-breaker.service.ts:81-91 | counts, stamps and trips at the threshold |
| CircuitBreaker.BreakerFollowsTrace | libs/core/src/resilience/circuit-breaker.service.ts:35-91 | for every interleaving, count, state and time stamp are functions of the failures and calls since the last reset |
| CircuitBreaker.AdmissionExactly | libs/core/src/resilience/circuit-breaker.service.ts:39-60 | a call is admitted iff the circuit is closed or some call since the last failure asked more than 30 s after it |
| CircuitBreaker.TripsOnConsecutiveExactly | libs/core/src/resilience/circuit-breaker.service.ts:81-91 | five consecutive failures always leave the circuit tripped; the failure that trips a closed circuit ends five consecutive ones iff no call succeeded after a failure since the last reset |
| CircuitBreaker.CountsConsecutiveExactly | libs/core/src/resilience/circuit-breaker.service.ts:72-82 | the failure count is never below the consecutive failures and equals them iff no call succeeded after a failure since the last reset |
| CircuitBreaker.TripsWithoutConsecutiveFailures | libs/core/src/resilience/circuit-breaker.service.ts:7-17 | a concrete trace trips although no two failures are consecutive |
| Retry.Execute | libs/core/src/resilience/retry.service.ts:47-88 | makes calls until the first that returns, must not be retried or is the last allowed, pauses between them, and reports that call |
| Retry.DelayDoubles | libs/core/src/resilience/retry.service.ts:95-102 | before jitter the delay starts at the base and doubles with every attempt, up to the cap |
| Retry.JitterIsAdded | libs/core/src/resilience/retry.service.ts:95-102 | jitter adds the drawn share of the allowed part, to the nearest millisecond |
| Retry.DelaysNeverShrink | libs/core/src/resilience/retry.service.ts:95-102 | with jitter at most 1 delays never shrink and never exceed the cap |
| Retry.NeverShrinksExactly | libs/core/src/resilience/retry.service.ts:95-102 | delays never shrink, whatever the base, the cap and the draws, iff the jitter is at most 1 |
| Retry.LargeJitterCanShrink | libs/core/src/resilience/retry.service.ts:95-102 | for every larger jitter some base and draw make the second delay shorter than the first |

## Left out

- Controllers, DTO validation, guards, logging, metrics, health checks and deployment files: plumbing.
- PostGIS, TimescaleDB, spatial queries and timeline reads: geometry is an opaque value.
- Hashing, JWT issue and `calculateExpiration`: a token's lifetime is a parameter.
- The `featureCount` column and assignment of features: the code does not keep the count in step with the features.
- Pagination of folder listings, timestamps of rows, and name uniqueness among roots, which no key in the schema covers.
- Concurrent folder edits and concurrent refreshes below the level of one use case: the code does not guard them, so each use case is one step there.
- Disturbed reverts in `FeatureWrites` and `RecordedHistory`, where a revert is one step: what they overwrite is proved in `Reverts`, and what is recorded with them in `Delivery`.
- The spelling of the parent id in the folder that an update or a create returns: it is the client's, the model returns the stored value. Folder ids in URLs are used in SQL only and stand for their values.
- Deleting a user and the cascade to tokens and folders.
- Version snapshot columns other than geometry, properties, name and author (vertex count, area, length, diff, message).
- CSV property values and `parseValue`; `parseFloat` is a parameter; header names are lower-cased as ASCII.
- Floating point in retry delays: the arithmetic is over real numbers.
- Device positions that are not finite numbers, and timestamps that are not integers.
- `markProcessed` and `isProcessed` of the inbox, which nothing calls; the tracking session entity; the empty consumer stub.
