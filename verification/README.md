# Zentral, modelled in Dafny

Zentral collects inventory, and enrolls and manages devices. This project models the parts of it that are algorithms
or protocols, and proves what they promise, on all inputs and over all runs. `dafny verify dfyconfig.toml` checks it.
All lemmas carry `{:induction false}`: their proofs are written out.

- **Commit trees** (`commit_trees`, `commit_tree_dicts`, `commit_tree_laws`, `equal_hashes`). Nested dicts are pruned
  and hashed bottom-up, in place. SHA-1 is any function from the text it is fed to 40 characters. Nothing says that it
  is injective; a result that needs two digests to differ says which.
- **The object store** (`hollow_trees`, `sealed_trees`, `object_store*`, `object_tables`, `object_serialization`,
  `lost_references`). Prepared trees are committed into tables whose rows are addressed by their hash. A model is a
  list of field definitions, and a scalar field has the function by which `full_clean` refuses or rewrites its values.
- **Snapshots** (`snapshot_chain`, `snapshot_tables`, `snapshot_events`, `snapshot_fields`, `snapshot_history`).
  Transactions that read the head, insert the next version under a unique constraint, and set the current snapshot, in
  any interleaving; the events derived from the diffs of successive versions.
- **Mobile devices** (`artifact_scheduler`, `status_reports`, `blueprint_declarations`, `dep_client`, `dep_sync*`).
  What is to be installed and removed next; what is made of a status report; tokens that stand for declarations; the
  synchronisation of the records of the device enrollment program.
- **Enrollments** (`enrollment_secrets`, `secret_verifications`, `scep_csr`, `enrollment_sessions`, `ota_sessions`,
  `dep_sessions`, `user_sessions`). Secrets with quotas, and the sessions they take forward. A request is one atomic
  step.
- **Writers and readers** (`rison*`, `urlsafe_serial_numbers`, `quoted_words`, `distinguished_names`, `machine_quer*`,
  `monolith_manifests`, `manifest_contents`, `package_hashes`). Each is proved against the reader it is meant for, or
  against what its result is to be made of.

What the source changes in place is a class or a loop, proved equal to a function of the old state; what is promised
is then proved of the functions. A result about a function is stated through the rows, texts and values it is about,
not through the helpers that the function itself is made of.

## Model

| member | source | states |
|---|---|---|
| `CommitTrees.Hasher.AddField` | zentral/utils/mt_models.py:24-41 | A field is added once, under a name, empty values are skipped, and other values are converted or refused; a refused field leaves the hasher as it was. |
| `CommitTrees.Hasher.HexDigest` | zentral/utils/mt_models.py:43-55 | SHA-1 is fed the fields sorted by name, each followed by its text, or by its sorted hashes. |
| `EqualHashes.DigestIs` | zentral/utils/mt_models.py:43-55 | The digest is that of the fields in the order of their names, each with its name before its chunks. |
| `EqualHashes.FieldPrints` | zentral/utils/mt_models.py:31-39 | A scalar is fed as True or False, as the one text a number is read back from, as itself, or as a date in its naive form; anything else is refused. |
| `EqualHashes.ContributionIs` | zentral/utils/mt_models.py:67-82 | A dict is fed as its hash, a list as the hashes of its dicts in order, a scalar as its text. |
| `CommitTreeLaws.DroppedExactly` | zentral/utils/mt_models.py:64-66 | None, [] and {} are dropped, and nothing else is: 0, False and the empty string are hashed. |
| `CommitTreeDicts.TreeDict.PrepareCommitTree` | zentral/utils/mt_models.py:58-84 | The dict changed in place is the prepared tree, or the exception is the one of the specification. |
| `CommitTreeDicts.TreeDict.CleanupCommitTree` | zentral/utils/mt_models.py:87-94 | The dict changed in place is the tree without hashes, at every depth. |
| `CommitTreeLaws.CanonicalHash` | zentral/utils/mt_models.py:58-84 | Trees that differ in the order of dicts and lists, in time zones and in empty values at any depth are prepared alike: both fail, or both get the same hash. |
| `EqualHashes.SameHashExactly` | zentral/utils/mt_models.py:58-84 | Two trees get the same hash exactly if they have, at every depth, the same live keys, the same texts of scalars and the same subtrees in lists, provided SHA-1 tells apart the dicts in the same places. |
| `EqualHashes.NumberShows` | zentral/utils/mt_models.py:31-32 | So two trees with different numbers in one field get different hashes. |
| `CommitTreeLaws.ReorderedDict` | zentral/utils/mt_models.py:64-66 | Reordering a dict and adding or dropping keys with None, [] or {} gives an equivalent tree. |
| `CommitTreeLaws.ReorderedList` | zentral/utils/mt_models.py:69-78 | Reordering a list gives an equivalent tree. |
| `CommitTreeLaws.PrepareIdempotent` | zentral/utils/mt_models.py:61-62 | Preparing a prepared tree changes nothing. |
| `CommitTreeLaws.CleanupOfPrepare` | zentral/utils/mt_models.py:58-94 | Cleaning up a prepared tree gives exactly the tree without its empty values. |
| `CommitTreeLaws.CleanedUpHash` | zentral/utils/mt_models.py:216-219 | The cleaned up tree is prepared to the hash of the original one, if no dict in it prunes to {}; this half needs nothing of SHA-1. |
| `HollowTrees.PruneEquivalentExactly` | zentral/utils/mt_models.py:64-66 | The cleaned up tree is equivalent to the original one exactly if no dict in it prunes to {}. |
| `HollowTrees.CleanedUpHashExactly` | zentral/utils/mt_models.py:64-66 | It is so prepared exactly if no dict in it prunes to {}, provided SHA-1 tells the two trees apart if they are not equivalent. |
| `CommitTreeLaws.PruneStable` | zentral/utils/mt_models.py:64-66 | The cleaned up tree leaves nothing to prune exactly when no dict in the original pruned to {}. |
| `ObjectStoreKeeps.CommitKeeps` | zentral/utils/mt_models.py:97-151 | Committing any tree nobody prepared yet, well-formed or not, keeps unique hashes, references, types and hashes of all rows, even if it fails halfway; if a row was stored that fails its hash check, it leaves a corrupt row. |
| `ObjectStoreRuns.ReachableInv` | zentral/utils/mt_models.py:97-151 | In every run of commits of such trees, each in a transaction of its own or not, the tables are sound at the end exactly if no commit left a row behind that failed its hash check. |
| `ObjectStoreCommits.CommitSound` | zentral/utils/mt_models.py:97-151 | Committing a well-formed tree, whose scalars are valid and cleaned to the same text, succeeds, and returns an object with the hash of the tree. |
| `ObjectStoreOutcomes.CommitSucceedsExactly` | zentral/utils/mt_models.py:98-151 | Of the trees with values of the right kind and a new hash, exactly those are committed whose subtrees are committed, whose scalars are valid and keep their text, whose JSON values have no dict that prunes to {}, and that miss no field, provided SHA-1 tells what is hashed for the row from what was hashed for the tree, if those differ. |
| `ObjectStoreOutcomes.CommitFailsExactly` | zentral/utils/mt_models.py:134-149 | The others end with the error of a subtree, or are refused by `full_clean` with the tables still sound, or, exactly if `full_clean` accepts them, leave a corrupt row. |
| `ObjectStoreOutcomes.WellFormedIs` | zentral/utils/mt_models.py:110-133 | The well-formed trees are those for which this holds at every depth. |
| `ObjectStoreCommits.CommitAgain` | zentral/utils/mt_models.py:98-103 | Committing the tree again, or an equivalent one, returns the same object with created=False and changes nothing. |
| `ObjectStoreCommits.CreatedMeansNew` | zentral/utils/mt_models.py:134-151 | For any tree nobody prepared yet, created=True comes with a new row, for a hash the table did not have. |
| `ObjectStoreCommits.RecursiveHashIsHash` | zentral/utils/mt_models.py:203-221 | The recursive hash of every object below a stored one is its `mt_hash`, like the shallow one. |
| `ObjectTables.Tables.Commit` | zentral/utils/mt_models.py:98-151 | The loops of `commit` over the tables give the result and the tables of the specification, and keep hashes unique. |
| `ObjectTables.Tables.Hash` | zentral/utils/mt_models.py:203-221 | The loop of `hash(recursive=False)` gives the shallow hash. |
| `ObjectSerialization.SerializedHash` | zentral/utils/mt_models.py:223-241 | Preparing `serialize()` gives back the object's own `mt_hash`, if no foreign key below leads to an object that serializes to {}. |
| `ObjectSerialization.CommitSerialized` | zentral/utils/mt_models.py:98-103 | So committing `obj.serialize()` returns (obj, False) and changes nothing. |
| `ObjectSerialization.SerializedIs` | zentral/utils/mt_models.py:223-241 | A serialized object has exactly the fields whose values are not None, [] or {}: the attribute, a date as its ISO text, the serialized object of a foreign key, or those of a list in order. |
| `LostReferences.SerializedFieldsExactly` | zentral/utils/mt_models.py:223-241 | Under the same condition, and no other, the hasher is fed the object's own fields. |
| `LostReferences.CommitSerializedExactly` | zentral/utils/mt_models.py:223-241 | With objects below that serialize without loss, committing `obj.serialize()` returns (obj, False) exactly when none of its foreign keys leads to an object that serializes to {}, provided SHA-1 tells apart what is hashed for the two. |
| `SnapshotEvents.DiffSwap` | zentral/utils/mt_models.py:243-272 | Swapping the arguments of `diff` swaps added and removed. |
| `SnapshotFields.FieldDiffIs` | zentral/utils/mt_models.py:260-271 | In a field that holds one value and differs, what was added is the truthy value of the first object, serialized for a foreign key, and what was removed that of the second; other fields are not in the diff. |
| `SnapshotFields.FieldPatched` | zentral/utils/mt_models.py:243-272 | Putting what was added in the place of what was removed turns the value of the second object into that of the first. |
| `SnapshotEvents.ReplayCommit` | zentral/contrib/inventory/utils.py:1369-1384 | Replaying the collection events of a commit over the collections of its parent's snapshot gives those of its own. |
| `SnapshotEvents.CollectionEventsExact` | zentral/contrib/inventory/utils.py:1369-1384 | The collection events of a commit are those of its attributes, and no event comes twice. |
| `SnapshotEvents.AttributeEventsExact` | zentral/contrib/inventory/utils.py:1378-1384 | The events of an attribute are one for each element of the symmetric difference, and no other. |
| `SnapshotFields.ReferenceEventsExact` | zentral/contrib/inventory/utils.py:1385-1402 | A foreign key that leads to another object than before sends an event for the new one and one for the old one, serialized, unless that is {}; otherwise it sends none. |
| `SnapshotFields.ReplayReference` | zentral/contrib/inventory/utils.py:1385-1402 | Replaying these events over what the foreign key led to before gives what it leads to now. |
| `SnapshotEvents.SnapshotAttributesArePlurals` | zentral/contrib/inventory/utils.py:1369-1377 | The attributes events are sent for are distinct plurals, so that their events have distinct names. |
| `SnapshotHistory.HistoryReplays` | zentral/contrib/inventory/models.py:623-632 | In every reachable state of the commit protocol, the events of all commits, found through their parents and replayed over version 1's collections, give those of the head. |
| `SnapshotChain.RunKeeps` | zentral/contrib/inventory/models.py:556-605 | In every state of every interleaving, versions are 1 to n, the parent of k + 1 is k and differs from it, each version was created by exactly one transaction, and the current snapshot was committed. |
| `SnapshotChain.ChainGrows` | zentral/contrib/inventory/models.py:581-593 | Only the success of a transaction that inserted a row adds to the chain, one row with version n + 1; the losers leave it alone. |
| `SnapshotChain.LoserKnowsWinner` | zentral/contrib/inventory/models.py:594-605 | A loser finds the commit that took its version; it returns no commit exactly if the winner stored the same snapshot, and fails otherwise; it only loses if the head moved since it was read. |
| `SnapshotChain.AgreesUnlessOvertaken` | zentral/contrib/inventory/models.py:577-593 | A step takes the current snapshot away from the head exactly if it is a commit without new version that was overtaken by another snapshot. |
| `SnapshotChain.SerialRunAgrees` | zentral/contrib/inventory/models.py:986-987 | In serial runs with `archive`, the current snapshot, when present, is the head's, and it is only missing after `archive`. |
| `SnapshotChain.AloneCommits` | zentral/contrib/inventory/models.py:565-593 | An undisturbed commit never loses, and does what the serial function says. |
| `SnapshotTables.SnapshotTables.CommitMachineSnapshotTree` | zentral/contrib/inventory/models.py:557-593 | On the tables of all machines and sources, a commit does this for its own, and nothing to the others. |
| `SnapshotTables.SnapshotTables.Archive` | zentral/contrib/inventory/models.py:986-987 | `archive` removes the current snapshots of one serial number, for all sources, and keeps the chains. |
| `ArtifactScheduler.InstallMeaning` | zentral/contrib/mdm/models.py:1027-1090 | The query of `next_to_install` finds exactly the latest versions in scope that have not failed and are missing, or are an update that is allowed. |
| `ArtifactScheduler.RemoveMeaning` | zentral/contrib/mdm/models.py:1092-1105 | The query of `next_to_remove` finds exactly the installed profiles out of scope whose removal has not failed. |
| `ArtifactScheduler.NextInstallMeaning` | zentral/contrib/mdm/models.py:1056-1090 | What is returned is pending, with a row of the blueprint such that no other pending version has one of higher priority, or of the same for an older version; nothing is returned exactly when nothing is pending. |
| `ArtifactScheduler.AnswerIsOwn` | zentral/contrib/mdm/models.py:1024-1030 | What is returned is of the target's own blueprint, channel and platform, and marked for before the setup assistant while that is not done. |
| `ArtifactScheduler.ForeignRows` | zentral/contrib/mdm/models.py:1024-1037 | Adding or dropping rows of other blueprints, or for artifacts of other channels or platforms, changes neither query. |
| `ArtifactScheduler.WithoutBlueprint` | zentral/contrib/mdm/models.py:1018-1024 | Without a blueprint nothing is installed, and every installed profile is to be removed whose removal has not failed. |
| `ArtifactScheduler.TargetVersionsLatest` | zentral/contrib/mdm/models.py:1043-1055 | Of the installed versions of an artifact, the latest is looked at. |
| `ArtifactScheduler.NextInstallExists` | zentral/contrib/mdm/models.py:1056-1090 | The order of the rows always has a first one, so there is an answer. |
| `ArtifactScheduler.NextRemoveMeaning` | zentral/contrib/mdm/models.py:1092-1105 | The removal returned is pending, and the oldest; nothing is returned exactly when nothing is pending. |
| `ArtifactScheduler.NextRemoveExists` | zentral/contrib/mdm/models.py:1092-1105 | There is an answer. |
| `ArtifactScheduler.StepPending` | zentral/contrib/mdm/commands/install_profile.py:60-72 | An acknowledged or failed command takes its operation off what is pending, and nothing else. |
| `ArtifactScheduler.RunsEnd` | zentral/contrib/mdm/models.py:1075-1105 | A run, in any order of answers, is no longer than what is pending at its start, and one that leaves nothing pending has carried out each operation once. |
| `ArtifactScheduler.NeverBoth` | zentral/contrib/mdm/models.py:1075-1105 | No artifact is both installed and removed in a run. |
| `ArtifactScheduler.NothingPendingIsSettled` | zentral/contrib/mdm/models.py:1081-1103 | Nothing is pending exactly when every artifact in scope is at its latest version, failed or held back by auto_update=false, and every profile out of scope failed to be removed. |
| `ArtifactScheduler.RunInstalls` | zentral/contrib/mdm/commands/remove_profile.py:20-27 | A version is installed after a run exactly if it was installed in it, or before, with no acknowledged command for its artifact. |
| `DepClient.CursorIterator.Next` | zentral/contrib/mdm/dep_client.py:28-34 | Devices come one by one in order; the cursor is set when the last one was taken. |
| `DepClient.PagesConcatenated` | zentral/contrib/mdm/dep_client.py:129-139 | Paging yields the devices of all pages, and ends with the cursor of the last one. |
| `DepSync.DepVirtualServer.SyncDevices` | zentral/contrib/mdm/dep.py:156-198 | The sync applies the whole batch to the records, then saves the cursor, and after a fetch marks the other devices; if it fails, the cursor stays. |
| `DepSyncLaws.SyncedDates` | zentral/contrib/mdm/dep.py:166-190 | In sync mode the date of a device ends at the latest of the stored and the delivered ones. |
| `DepSyncRecords.RecordsAfter` | zentral/contrib/mdm/dep.py:132-190 | Every column of every record after a batch: server, dates and, in a sync, the operation are those of the last operation that was not stalled; the assigner and the profile status and id those of the last such operation that gave them, or the stored or default ones. |
| `DepSyncLaws.DatesNeverGoBack` | zentral/contrib/mdm/dep.py:166-190 | No sync or fetch, even one that fails, takes a date back or forgets a device. |
| `DepSyncLaws.BatchAgain` | zentral/contrib/mdm/dep.py:132-190 | A batch applied a second time changes nothing, and fails again where it failed. |
| `DepSyncLaws.ResumedSync` | zentral/contrib/mdm/dep.py:156-190 | A sync that stops after any number of operations, and is run again from the saved cursor, ends as if it had not stopped. |
| `DepSyncLaws.FetchDeletes` | zentral/contrib/mdm/dep.py:194-198 | After a fetch, a device of the server is deleted exactly if it was not found, or was deleted before; devices of other servers that were not found do not change. |
| `StatusReports.LegacyProfileRoundTrip` | zentral/contrib/mdm/declarations.py:41-47 | The identifier of a profile is recognised in a report, and gives back its artifact. |
| `StatusReports.EnrolledDevice.UpdateArtifacts` | zentral/contrib/mdm/declarations.py:123-151 | The artifacts of the device are reconciled with the report; without a configurations list, or with an unknown version, nothing changes. |
| `StatusReports.ReportedIsLast` | zentral/contrib/mdm/declarations.py:129-135 | What is collected is, for each artifact, the token of the last configuration that is active, "valid", has "legacy-profile" in its identifier, and has the artifact after its last dot. |
| `StatusReports.IgnoredConfiguration` | zentral/contrib/mdm/declarations.py:131-135 | A configuration that is inactive, not valid, or not of a profile can be dropped. |
| `StatusReports.ReportedLast` | zentral/contrib/mdm/declarations.py:131-151 | One more active and valid configuration, for an artifact and a version of it, makes that version the installed one, and the only one of the artifact, if none is reported for another artifact. |
| `StatusReports.ReportedExactly` | zentral/contrib/mdm/declarations.py:136-151 | The profiles of the device are exactly the reported ones if and only if every reported version is one of the profile it is reported for. |
| `StatusReports.ReportedProfiles` | zentral/contrib/mdm/declarations.py:123-151 | After a consistent report, a version of a profile is on the device exactly if it was the last one reported active and valid for its artifact. |
| `StatusReports.OthersUntouched` | zentral/contrib/mdm/declarations.py:136-151 | Rows that are not of profiles are left alone by such a report. |
| `StatusReports.ReportAgain` | zentral/contrib/mdm/declarations.py:123-151 | Processing a report again changes nothing, whatever it says. |
| `BlueprintDeclarations.Blueprint.UpdateActivation` | zentral/contrib/mdm/declarations.py:68-87 | The activation is the sorted payload, with the new token if and only if the payload is new. |
| `BlueprintDeclarations.Blueprint.UpdateDeclarationItems` | zentral/contrib/mdm/declarations.py:91-120 | So are the declaration items; without an activation the update fails. |
| `BlueprintDeclarations.BlueprintIdentifierIs` | zentral/contrib/mdm/declarations.py:13-14 | The identifiers of a blueprint are below its domain and key, and end in what they stand for. |
| `BlueprintDeclarations.ActivationIs` | zentral/contrib/mdm/declarations.py:68-76 | The activation has the status subscriptions and a profile for each artifact, sorted. |
| `BlueprintDeclarations.ConfigurationsAre` | zentral/contrib/mdm/declarations.py:98-111 | The declared configurations are the status subscriptions and each profile with its latest version, in the order of identifiers and tokens. |
| `BlueprintDeclarations.ActivationCanonical` | zentral/contrib/mdm/declarations.py:68-75 | Two queries give the same activation payload exactly when they have the same rows, in whatever order. |
| `BlueprintDeclarations.ActivationTokens` | zentral/contrib/mdm/declarations.py:76-87 | The ServerToken is the same after two updates exactly when the artifacts were the same all the time between them. |
| `BlueprintDeclarations.DeclarationsTokens` | zentral/contrib/mdm/declarations.py:91-120 | The DeclarationsToken is the same after two updates exactly when neither the activation nor the latest profile versions changed between them. |
| `EnrollmentSecrets.Service.VerifySecret` | zentral/contrib/inventory/models.py:1256-1280 | A verification creates one request and adds one to the count, or is refused for the first reason that applies and changes nothing. |
| `SecretVerifications.RefusedExactly` | zentral/contrib/inventory/models.py:1303-1333 | A verification is refused for the first of the six reasons that there is, and only then. |
| `SecretVerifications.VerifiedExactly` | zentral/contrib/inventory/models.py:1256-1280 | It succeeds exactly for a secret of the model, with a session in one of the statuses, and no reason to refuse; then it adds one request and one to the count of this secret. |
| `SecretVerifications.StartExactly` | zentral/contrib/filebeat/models.py:59-72 | An enrollment starts a session with a secret for its serial number, with a quota of 2, or fails. |
| `SecretVerifications.ScepExactly` | zentral/utils/api_views.py:212-243 | The SCEP step verifies the serial number and the business unit of the subject of a started session. |
| `SecretVerifications.CompleteExactly` | zentral/contrib/filebeat/views.py:216-231 | The completion verifies the serial number of a session that is not completed. |
| `SecretVerifications.RevokedForGood` | zentral/contrib/inventory/models.py:1311-1312 | A revoked secret is never verified again. |
| `EnrollmentSecrets.Service.VerifyScepCsr` | zentral/utils/api_views.py:235-243 | The SCEP step verifies the secret of a started session and takes the session forward, or is rolled back. |
| `EnrollmentSecrets.Service.CompleteEnrollment` | zentral/contrib/filebeat/views.py:192-243 | The completion verifies the secret of an unfinished session and completes it, or is rolled back. |
| `EnrollmentSecrets.RunKeeps` | zentral/contrib/inventory/models.py:1256-1333 | In every run, counts are numbers of requests, quotas are kept, and the count of a session's secret is the number of its transitions. |
| `EnrollmentSecrets.RequestCountIsVerifications` | zentral/contrib/inventory/models.py:1269-1277 | `request_count` is the number of successful verifications in the run, which never exceeds a quota. |
| `EnrollmentSecrets.SessionsNeverStuck` | zentral/contrib/filebeat/models.py:122-133 | In every reachable state the asserts hold, and the quota of 2 refuses no unfinished session. |
| `EnrollmentSecrets.CompletedOnce` | zentral/contrib/filebeat/views.py:216-231 | No session is completed twice. |
| `ScepCsr.ReadSubject` | zentral/utils/api_views.py:206-211 | The loops over the subject give the dict with the last value of each kind. |
| `ScepCsr.RSplitMeaning` | zentral/utils/api_views.py:227-230 | The last "$" of a common name separates the prefix from a secret without "$", and there is no other reading. |
| `ScepCsr.ParseIntExactly` | zentral/utils/api_views.py:223-223 | The number of the business unit may have a sign, white space around it, and single underscores between its digits. |
| `ScepCsr.CredentialsExactly` | zentral/utils/api_views.py:212-230 | A subject is read exactly if its organization is "MBU$" and a number, and its common name has a "$". |
| `ScepCsr.CredentialsRoundTrip` | zentral/contrib/filebeat/models.py:112-116 | The common name and organization of a session give back its prefix, secret, business unit and serial number. |
| `EnrollmentSessions.EnrollmentSession.SetNextStatus` | zentral/contrib/mdm/models.py:239-246 | Status and attributes change together if the test holds, and not at all otherwise. |
| `OtaSessions.RunDetermined` | zentral/contrib/mdm/models.py:379-431 | Each success takes the status exactly one rank up; the status determines which SCEP requests are set, and whether a device is. |
| `OtaSessions.NeverRebound` | zentral/contrib/mdm/models.py:379-431 | Requests, device and user are never set a second time. |
| `OtaSessions.SetByHistory` | zentral/contrib/mdm/models.py:379-431 | Requests and device are those of the steps that were taken. |
| `OtaSessions.NeverStuck` | zentral/contrib/mdm/models.py:379-431 | Given its arguments a step succeeds exactly when it follows the status; the other tests never fail. |
| `OtaSessions.PrefixForScep` | zentral/contrib/mdm/models.py:363-369 | There is a prefix exactly when a SCEP request can be verified next. |
| `OtaSessions.PrefixIsRead` | zentral/contrib/mdm/views/scep.py:16-29 | The prefix in a SCEP request finds the session in its status, and the step it can take. |
| `OtaSessions.CreatedFirst` | zentral/contrib/mdm/models.py:297-330 | Both ways of creating a session give one that is at its start, with a secret not used yet and the quota for the steps left. |
| `OtaSessions.CreatedAdmits` | zentral/contrib/mdm/models.py:297-330 | The secret of a new session admits its business unit until the parent expires, and if it was created for a device, no other device. |
| `OtaSessions.DownloadExactly` | zentral/contrib/mdm/views/ota.py:47-74 | The profile is downloaded exactly by an admitted device in the first phase, to which the secret is bound from then on. |
| `OtaSessions.ScepExactly` | zentral/contrib/mdm/views/scep.py:16-22 | A SCEP request is verified exactly in its phase, if the secret admits the subject. |
| `OtaSessions.RequestsAccounted` | zentral/contrib/mdm/models.py:297-330 | In every run of requests the count of the session's secret is the number of verifications that took it forward, at most its quota. |
| `OtaSessions.QuotaIsEnough` | zentral/contrib/mdm/views/scep.py:16-22 | The secret is used up exactly when both SCEP requests were verified, so the quota refuses no session that waits for one. |
| `DepSessions.RunDetermined` | zentral/contrib/mdm/models.py:767-786 | Each success takes the status one rank up; it determines whether the SCEP request and the device are set. |
| `DepSessions.NeverRebound` | zentral/contrib/mdm/models.py:767-786 | The request and the device are set only once. |
| `DepSessions.SetByHistory` | zentral/contrib/mdm/models.py:767-786 | Request and device are those of the steps that were taken. |
| `DepSessions.NeverStuck` | zentral/contrib/mdm/models.py:767-786 | Given its argument a step succeeds exactly when its status is the next one. |
| `DepSessions.QuotaIsEnough` | zentral/contrib/mdm/models.py:702-731 | The quota of 1 is used up exactly when the SCEP request was verified, and refuses no session that waits for it. |
| `DepSessions.CreatedAdmits` | zentral/contrib/mdm/models.py:702-731 | The secret of a new session admits its device and its business unit, for an hour. |
| `DepSessions.ScepExactly` | zentral/contrib/mdm/views/scep.py:16-22 | The SCEP request is verified exactly of a started session whose secret admits the subject. |
| `UserSessions.RunDetermined` | zentral/contrib/mdm/models.py:910-945 | Each success takes the status one rank up; there is an access token exactly in an account driven session past its start. |
| `UserSessions.NeverRebound` | zentral/contrib/mdm/models.py:910-945 | User, access token, request and device are set only once. |
| `UserSessions.SetByHistory` | zentral/contrib/mdm/models.py:910-945 | User, access token, request and device are those of the steps that were taken. |
| `UserSessions.NeverStuck` | zentral/contrib/mdm/models.py:910-945 | Given its arguments a step succeeds exactly when its status is the next one. |
| `UserSessions.RequestsAccounted` | zentral/contrib/mdm/models.py:846-867 | The count of the secret is the number of log ins and of the SCEP request, at most its quota. |
| `UserSessions.CreatedAdmits` | zentral/contrib/mdm/models.py:846-867 | The secret of a new session admits any device of its business unit, until the parent expires. |
| `UserSessions.VerifiedExactly` | zentral/contrib/mdm/views/user.py:98-121 | A log in is verified at any time, the SCEP request of a started session. |
| `UserSessions.RefusedAfterLogIns` | zentral/contrib/mdm/views/user.py:98-121 | The SCEP request of a session that waits for it is refused for its quota exactly if the secret is otherwise valid and there were as many log ins as the quota. |
| `Rison.Dumps` | zentral/utils/rison.py:49-120 | The loops of the encoder write the specified text; only lists and dicts are accepted. |
| `RisonLaws.RoundTrip` | zentral/utils/rison.py:9-114 | A decoder inverts the encoder on a value exactly when no string or key in it has an id as its first line and more lines after it. |
| `RisonLaws.UnquotedExactly` | zentral/utils/rison.py:9-27 | A string is written without quotes exactly if its first line is not empty, has id characters only, and does not begin with a digit or a minus sign. |
| `RisonLaws.EncodeInjective` | zentral/utils/rison.py:29-114 | Such values are encoded differently. |
| `RisonLaws.OneLineIsSafe` | zentral/utils/rison.py:19-19 | Values without new lines are among them. |
| `UrlsafeSerialNumbers.UrlsafeRoundTrip` | zentral/contrib/inventory/models.py:799-817 | Every serial number comes back from its URL form, including those that start with a dot. |
| `UrlsafeSerialNumbers.UrlsafeInjective` | zentral/contrib/inventory/models.py:809-817 | Different serial numbers have different URL forms. |
| `UrlsafeSerialNumbers.UnchangedExactly` | zentral/contrib/inventory/models.py:810-817 | A serial number is its own URL form exactly if it has unreserved characters only and does not begin with a dot. |
| `UrlsafeSerialNumbers.AlphabetIs` | zentral/contrib/inventory/models.py:814-815 | The alphabet is that of base64url (section 5 of RFC 4648). |
| `UrlsafeSerialNumbers.GroupIsNumber` | zentral/contrib/inventory/models.py:814-815 | Three bytes and their four letters are one number, in base 256 and in base 64 (section 4 of RFC 4648). |
| `UrlsafeSerialNumbers.UrlsafeIsUnreserved` | zentral/contrib/inventory/models.py:810-817 | The URL form has only unreserved characters (section 2.3 of RFC 3986). |
| `UrlsafeSerialNumbers.PadRestores` | zentral/contrib/inventory/models.py:801-803 | The padding is restored from the length (section 5 of RFC 4648, after `-len % 4`). |
| `QuotedWords.SplitCommaSeparatedQuotedString` | zentral/utils/text.py:9-32 | The character loop splits as specified. |
| `QuotedWords.PrepareValue` | zentral/utils/forms.py:16-24 | The words are quoted if they contain a comma, and joined. |
| `QuotedWords.SplitRoundTrip` | zentral/utils/text.py:9-32 | Splitting a prepared list gives the list back exactly when its words are trimmed, not empty and without double quotes. |
| `QuotedWords.StripSplits` | zentral/utils/text.py:9-32 | Words lose the white space around them, all of it, and nothing else. |
| `QuotedWords.FieldRoundTrip` | zentral/utils/forms.py:26-28 | So does the form field, which strips the text first, for the same lists and no others. |
| `DistinguishedNames.ParseDn` | zentral/utils/certificates.py:25-55 | The character loop finds the specified pairs, the last value of each attribute. |
| `DistinguishedNames.ParseTextDn` | zentral/utils/certificates.py:71-102 | The character loop finds the specified pairs, all values of each attribute. |
| `DistinguishedNames.PairsRoundTrip` | zentral/utils/certificates.py:29-55 | The scanners give back every list of pairs rendered with escapes, without those that have an empty attribute. |
| `DistinguishedNames.DnRoundTrip` | zentral/utils/certificates.py:25-55 | `parse_dn` recovers distinct attributes that are not empty. |
| `DistinguishedNames.TextDnRoundTrip` | zentral/utils/certificates.py:71-102 | `parse_text_dn` recovers the values of each attribute that is not empty, in order. |
| `MachineQueries.MSQuery.ForceFilter` | zentral/contrib/inventory/utils.py:880-891 | The first filter of the class is replaced in place, or one is added; filters stay numbered by their place. |
| `MachineQueries.MSQuery.UniqueJoinsWithArgs` | zentral/contrib/inventory/utils.py:971-986 | The loop over the joins keeps the specified ones. |
| `MachineQueries.MSQuery.BuildGroupingQueryWithArgs` | zentral/contrib/inventory/utils.py:989-1015 | The builder's loops give the specified text and arguments. |
| `MachineQueries.MSQuery.BuildFetchingQueryWithArgs` | zentral/contrib/inventory/utils.py:1092-1131 | So for the fetching query, with its pages. |
| `MachineQueryLaws.JoinsOnce` | zentral/contrib/inventory/utils.py:971-986 | Every join text is there once, with the arguments it always comes with; a conflict never happens. |
| `MachineQueryLaws.WhereHoles` | zentral/contrib/inventory/utils.py:151-840 | The conditions of every filter have one placeholder for each of their arguments. |
| `MachineQueryScopes.ArgsAreTheValue` | zentral/contrib/inventory/utils.py:151-840 | The arguments of a filter's conditions are its value, as often as it is compared. |
| `MachineQueryScopes.ValueOnlyInArgs` | zentral/contrib/inventory/utils.py:151-840 | The text of joins and conditions does not depend on the value, but for whether there is one and whether it is the none value. |
| `MachineQueryScopes.NewFilterIs` | zentral/contrib/inventory/utils.py:32-56 | A filter keeps its text, stripped where names are looked for, and fails without a bundle or with a date that is not read. |
| `MachineQueryScopes.QueryScoped` | zentral/contrib/inventory/utils.py:971-1008 | For every list of filters, every table alias is bound by one join, each join uses aliases bound before it, and the conditions use those that are bound. |
| `MachineQueryScopes.AndBetween` | zentral/contrib/inventory/utils.py:1001-1008 | Between two conditions stands AND. |
| `MachineQueryScopes.PagesFollow` | zentral/contrib/inventory/utils.py:1113-1118 | The first page starts at the first row, each page where the one before ends. |
| `MachineQueryLaws.GroupingQueryAligned` | zentral/contrib/inventory/utils.py:989-1015 | For every list of filters the k-th placeholder of the grouping query belongs to the filter that supplied the k-th argument. |
| `MachineQueryLaws.FetchingQueryAligned` | zentral/contrib/inventory/utils.py:1092-1131 | So in the fetching query, with limit and offset last. |
| `MachineQueryText.FetchingTextCounts` | zentral/contrib/inventory/utils.py:1092-1131 | The text of the fetching query has a "%s" for each argument, whatever the filter values. |
| `MachineQueryText.GroupingTextCounts` | zentral/contrib/inventory/utils.py:989-1015 | So has the text of the grouping query. |
| `MachineQueryText.GroupingTextIs` | zentral/contrib/inventory/utils.py:989-1015 | The text of the grouping query: select list, base table, joins, the conditions with AND between them if there are any, and the grouping sets. |
| `MachineQueryText.FetchingTextIs` | zentral/contrib/inventory/utils.py:1092-1131 | The fetching query selects from such a text, with limit and offset if it is paged. |
| `MachineQueryText.BundleJoinText` | zentral/contrib/inventory/utils.py:514-527 | The join of a bundle is a sub query with a placeholder for the bundle, under an alias with the number of the filter. |
| `MonolithManifests.EnrollmentPackages` | zentral/contrib/monolith/models.py:516-539 | The loop over the rows of the query selects as specified. |
| `MonolithManifests.LargestTagSetSelected` | zentral/contrib/monolith/models.py:516-539 | For each builder with a package whose tags the machine has, the one with most tags is selected, the lowest id on ties. |
| `MonolithManifests.Serialize` | zentral/contrib/monolith/models.py:676-703 | The manifest is the specified one; it fails exactly if a builder is not configured. |
| `ManifestContents.ManifestIs` | zentral/contrib/monolith/models.py:676-703 | The manifest has its catalog and the sub manifests in scope; the default installs come first, then those of packages, and last those of printers. |
| `ManifestContents.IncludedAre` | zentral/contrib/monolith/models.py:493-500 | The sub manifests are those without tags or with one of the machine's, in order. |
| `ManifestContents.OnePrinter` | zentral/contrib/monolith/models.py:541-550 | A printer in use comes once for each tag it shares with the machine, and once if it has no tags. |
| `MonolithManifests.InstalledOrRemoved` | zentral/contrib/monolith/models.py:687-698 | A package name is installed if its builder is in scope and removed otherwise; it is in both lists exactly if it clashes with a default, a printer or the other scope. |
| `MonolithManifests.ExactlyOne` | zentral/contrib/monolith/models.py:687-698 | With distinct names and no clash, it is in exactly one of the lists. |
| `MonolithManifests.CatalogHasPackages` | zentral/contrib/monolith/models.py:653-666 | The catalog has a package for every builder of the manifest: only the selected one, or all if it is not in scope. |
| `PackageHashes.GetMd5s` | zentral/contrib/mdm/app_manifest.py:63-80 | The hashes are those of the pieces of the file, in order, and the size returned is the file's if there is one piece. |
| `PackageHashes.PieceAt` | zentral/contrib/mdm/app_manifest.py:69-75 | The i-th piece is the bytes from i times the size to the next multiple or the end. |
| `PackageHashes.PieceCount` | zentral/contrib/mdm/app_manifest.py:69-79 | There are as many pieces as are needed to cover the file, and no more. |
| `PackageHashes.PiecesCover` | zentral/contrib/mdm/app_manifest.py:69-79 | The pieces put together are the file. |
| `PackageHashes.RoundedDown` | zentral/contrib/mdm/app_manifest.py:63-68 | The size of a piece is the requested one rounded down to a multiple of 64 KiB. |
| `SnapshotChain.OvertakenRun` | zentral/contrib/inventory/models.py:577-593 | A run after which the current snapshot is not the head's. |
| `ObjectStoreFailures.ScalarMismatch` | zentral/utils/mt_models.py:134-149 | A text that is not valid is refused; one that cleaning changes leaves a corrupt row. |
| `ObjectStoreFailures.BlankAndAddress` | zentral/contrib/inventory/models.py:290-300 | A blank disk name is refused, and an address in upper case leaves a corrupt row. |
| `ObjectStoreFailures.HollowJsonMismatch` | zentral/utils/mt_models.py:113-120 | A JSON value that prunes to {} leaves a corrupt row. |
| `LostReferences.SnapshotStoredTwice` | zentral/utils/mt_models.py:228-238 | A snapshot whose serialized form is committed as a second snapshot. |
| `CommitTreeLaws.HollowChangesHash` | zentral/utils/mt_models.py:216-219 | A tree whose cleaned up form gets another hash. |
| `UserSessions.TenLogInsRefuse` | zentral/contrib/mdm/views/user.py:98-121 | Ten log ins, after which a started session is never verified. |
| `StatusReports.MisreportedVersion` | zentral/contrib/mdm/declarations.py:139-151 | A version reported for another artifact is recorded as an artifact nobody reported. |
| `RisonLaws.LinesCollide` | zentral/utils/rison.py:19-19 | Two lists of strings with the same text. |

## Findings

Where the code does not keep what is asked of it: an input for which it fails, and when exactly it does not.

- A commit can fail after its row is stored. `obj.full_clean()` runs between the save and the hash check, and rewrites
  the attributes: an address in upper case comes back in lower case, so the hash of the row is no longer that of the
  tree (`ObjectStoreFailures.ScalarMismatch`, `BlankAndAddress`). The same happens to a JSON field with a dict that
  prunes to {} (`HollowJsonMismatch`). The row stays, because `commit_machine_snapshot_and_trigger_events` catches the
  exception (zentral/contrib/inventory/utils.py:1408-1413). `ObjectStoreOutcomes.CommitSucceedsExactly` says when a
  tree with a new hash is committed, and `CommitFailsExactly` that it corrupts the table exactly if a scalar does not
  keep its text, a JSON value has such a dict, or a field that is missing is not stored as nothing, and `full_clean`
  accepts the row all the same. A table once corrupt stays so: `ObjectStoreRuns.ReachableInv`.
- `prepare_commit_tree` of a cleaned up tree gives another hash for a tree with a dict in it that prunes to {}
  (`CommitTreeLaws.HollowChangesHash`), and for no other tree: `HollowTrees.CleanedUpHashExactly`.
- The snapshot {"system_info": {"cpu_brand": None}} is committed, but its `serialize()` drops the key, and committing
  that stores a second snapshot (`LostReferences.SnapshotStoredTwice`). `CommitSerializedExactly` says that this
  happens exactly if a foreign key leads to an object that serializes to {}.
- The current snapshot can fall behind the head of the chain (`SnapshotChain.OvertakenRun`). A commit that finds its
  snapshot unchanged inserts no version, so it cannot lose a race, and sets the current snapshot last:
  `AgreesUnlessOvertaken`.
- A status report that names, for a profile, a version of something else is recorded under the other artifact, and a
  profile nobody reported stays (`StatusReports.MisreportedVersion`); `ReportedExactly` has the condition.
- A device that was marked as deleted stays deleted when a later fetch finds it again, since a fetch does not change
  the last operation: `DepSyncLaws.FetchDeletes`.
- Logging in to a user enrollment uses up the quota of the session's secret. After ten log ins the session cannot go
  on to its SCEP request (`UserSessions.TenLogInsRefuse`); `RefusedAfterLogIns` has the condition.
- Two different values can have the same rison text (`RisonLaws.LinesCollide`): the pattern for ids is multiline, so a
  string is written without quotes if only its first line is an id. `RoundTrip` has the condition.
- A word with a double quote, or with spaces around it, does not come back from its form field:
  `QuotedWords.FieldRoundTrip` has the condition.
- A package name can be installed and removed by the same manifest, if it clashes with a default or the name of
  another builder: `MonolithManifests.InstalledOrRemoved`.
- `DateTimeFilter` calls `strptime` with its two arguments swapped (zentral/contrib/inventory/utils.py:773), so a
  value has to be a format that its own format matches; `MachineQueries.NewFilter` does as the code does.

## Left out

- Django: requests, forms, templates, permissions, the database. A table is a map or a set, a transaction or an atomic
  request one step. Constraint errors appear where the protocol is about them.
- SHA-1, MD5, random tokens, clocks and `strptime` are parameters; ASN.1, plists, certificates and UTF-8 are not
  modelled.
- TreeDict: nested dicts are copied in and out, so two keys that hold the same dict object are not modelled.
- CommitSound: an attribute that is read back from the database is taken to be its cleaned form.
- ReachableInv: only trees that hold no hash yet, as a caller's `mt_hash` is believed.
- CommitSucceedsExactly: relative to SHA-1, which has to tell apart what is hashed, for the row and for the tree, and
  for a JSON value that is not equivalent to its cleaned up form. Two different lists of fields can be one text, since
  there are no separators; then the hash is the same whatever SHA-1 does. Scalars in JSON fields are not covered.
- CleanedUpHashExactly: relative to SHA-1 as well; `PruneEquivalentExactly` is not.
- SameHashExactly: relative to SHA-1 as well. A scalar can be the text of a hash and a list can have one subtree, so
  values of different kinds can be fed as the same text; the condition says so.
- ReplayReference: for objects that serialize without losing a reference.
- QueryScoped: which aliases a constant text binds and uses is read off the source by hand.
- CommitSerializedExactly: relative to SHA-1 as well, and to objects below that serialize without loss.
- Commit: a subtree is taken to be prepared, so a tree that comes with its own `mt_hash` and with subtrees that were
  never prepared, which the code prepares in the nested commits, is not modelled. The race of two commits of the same
  hash, which the unique constraint decides, is one step; extra attributes passed to `save` are not modelled.
- BlankAndAddress: the cleaning of addresses is given for the one address only.
- SerializedHash: needs that no foreign key below leads to an object that serializes to {}.
- PrepareCommitTree: floats and other types the hasher refuses are one value, `Other`.
- CollectionEventsExact: the heartbeat, and the payload of the source in each event, are not modelled.
- DiffSwap: a falsy value is left out of a diff as in the code, so a diff does not tell None from 0.
- SerialRunAgrees: in serial runs only; `OvertakenRun` shows why.
- RunsEnd: every command is acknowledged or fails. Commands that wait for confirmation, are not now possible, or are
  queued twice, and the device's own choice of an order, are not modelled.
- InstallMeaning: the SQL is read as relations over finite sets; times are numbers.
- SyncDevices: the pages of the service are a parameter, and so is the time; expired cursors are not modelled.
- VerifySecret: editing a quota or a secret in a form, and forms of secrets other than by their text, are not
  modelled.
- CompleteEnrollment: the response, the machine's tags and the events are not modelled, nor is the comparison of the
  certificate's name; whether the request has all its keys is one flag.
- SetNextStatus: a wrong status is a result, not an exception, and saving the session is the assignment.
- BuildGroupingQueryWithArgs: the select list and the grouping sets are given as texts.
- BuildFetchingQueryWithArgs: likewise, and the longer constant texts go by their names.
- RefusedAfterLogIns: sessions of the account driven flow need a realm and its user, taken as given.
- ReadSubject: subjects are lists of kinds and texts; `int()` reads ASCII digits, signs, spaces and underscores only.
- RoundTrip: no floats.
- ParseDn: what is done with an encoded serial number after the scan is not modelled.
- UrlsafeRoundTrip: decoding is only of texts in the alphabet of base64url.
- FetchingQueryAligned: the meaning of the SQL is not modelled, nor the filters of munki and osquery, nor the queries
  of the export.
- FetchingTextCounts: the longer constant texts are a parameter, and so are the select list and the group by clause;
  none may hold a percent sign.
- GroupingTextCounts: likewise.
- Serialize: the plist is a record of its lists; package infos are names, and printers, sub manifests and catalogs are
  given.
- GetMd5s: the chunks of an upload held in memory, which comes as one chunk of any size, are not modelled.
- The menu, configuration loaders, export, user accounts and lookup tables have no law to prove.
