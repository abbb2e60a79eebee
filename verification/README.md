# A verified model of the guest agent and its updater

The guest agent polls a metadata service for requests (users, SSH keys, secrets, certificates) and
acts on them. The guest agent updater keeps a small local repository of agent releases on Windows,
installs the newest one as a service and falls back to the one before it when that fails. This
project models the parts of both that carry state, and proves what they keep, over every input,
every failing call and every run.

| file | what it models |
|---|---|
| `Versions.dfy` | version precedence and the order it puts on release names |
| `Sorting.dfy` | `sort.Slice` on an array of names, in place |
| `Machine.dfy` | the machine: a file tree, the service control manager, the release server; any call may fail |
| `Eviction.dfy` | which versions a load of the repository keeps, as a relation on sets |
| `Filer.dfy` | the local repository: `load`, `Remove`, `Add` and the index they share with callers |
| `Services.dfy` | the service manager and the order of commands it sends |
| `InstallLog.dfy` | what an installation and a rollback leave in the service log, and what cannot pass for one |
| `DryRun.dfy` | the answer of a dry run and what it predicts |
| `Updater.dfy` | the updater: `Init`, `Check`, `Update`, `install`, rollback, and runs of its commands |
| `UserRequests.dfy` | the users handlers of Linux and Windows: store the hash, then act |
| `LastHash.dfy` | the four handlers that skip a repeat of the last answered delivery |
| `Watchers.dfy` | the metadata poller, and watchers that interleave under one mutex |
| `Text.dfy` | the parts of `strings` that the two text files need |
| `AuthorizedKeys.dfy` | `appendKey`: adding a key to a file that is rewritten without being truncated |
| `SshKeys.dfy` | `parseSshKeys` |
| `Passwords.dfy` | the password generator and its shuffle |

## How to read it

* **Failing calls.** Every call of the machine may fail at any time. `Host.faults` counts the calls
  that failed; a run is *calm* when the count is unchanged. Safety clauses hold for every run; clauses
  that say what is achieved are for calm runs. An error of a method that is not a failing call (a
  service that does not start in time, a checksum that does not match, a version without a file to
  install) is stated as what it is. In the users handlers and the key file what fails is part of the
  input, or the contract names every shape a failure can leave.
* **Paths** are sequences of components, so that being inside a directory is by component. That the
  agent directory's name is a string prefix of the repository's plays no part.
* **The index** of the repository is a heap array. `List` hands out the array itself and the updater
  sorts it in place, in ascending order too; the contracts say that this only permutes it.
* **Parameters.** `semver.Parse`, SHA-256, the version a binary prints, the release server's answers
  the random numbers and the JSON decoding are function values or constants that every theorem
  quantifies over. A name
  that does not parse is read as the zero version, both by `Parse` and by `New`, whose pointer is
  never nil (vendor/github.com/blang/semver/v4/semver.go:225-229, 271-356). `Parse("")` is an error.
* **Services** change on their own between any two calls: what a query shows is arbitrary, and the
  log of the service control manager remembers what was shown and what was sent.

## Where the code falls short of its intent

* `load` deletes a corrupt entry but keeps its name in the index. So the index agrees with the disk
  exactly when nothing was corrupt or the load evicted (`IndexAgreesIff`); a corrupt entry pushes
  out a sound version exactly when the oldest name is sound and only the corrupt ones make it more
  than five (`ExactEviction`; a tie between a sound and a corrupt name leaves it open,
  `TieLeavesItOpen`); and a name that is only in the index cannot be installed (`PhantomHasNoFile`).
* So "a failed update has a version to go back to" holds for names. A name of the index lacks its file
  exactly when its entry was corrupt and at most five were found (`FileUnlessHollow`, `Init`,
  `UpdateCommand`). When that name is the installed version's, `maybeAddInstalledVersion` does not add
  it again, and an installation of it removes the service and the agent before it finds that out;
  an empty agent directory is left (`Install`).
* And it has one exception when the latest release is not known: an installed version that is not newer
  than the zero version, with a release of empty name in the index (`UpdateCommand`).
* A rollback, or a failed one, may leave an agent that does not run; but without failing calls and with
  a repository in order the agent is never gone and never downgraded, over any number of updates
  (`RunUpdates`).
* With no known latest release `ensureLatestAdded` still downloads, under an empty name, although the
  dry run never announces it; unless such a release is published with a matching checksum, the update
  fails (`DryRunThenUpdate`, `Update`).
* On Linux any failure to open the idempotency file lets a request through, so a request can be acted
  upon twice in a row (`UnopenedStoreRepeats`); that is the only way (`PerformedAgainIff`). On Windows
  it cannot (`AtMostOnceOnWindows`).
* `appendKey` is lossless exactly when no line of the file ends in a carriage return or is too long
  for the scanner (`AppendIsLossless`). A read error is not noticed either: what was read so far is
  taken for the whole file, with an unfinished last line, and the rest may be lost
  (`ReadErrorIsLossless`).
* The password has the length asked for exactly when the two counts do not overflow
  (`Generator.Generate`).
* `Stop` sends its command to the guest agent's service whatever name it is given. For another name
  the log stays careful exactly when no command was needed or what was last seen of the guest agent's
  service happens to justify it (`Manager.Stop`, `StopElsewhereIsCareless`).

## Model

| member | source | states |
|---|---|---|
| Versions.CompareIsTotalOrder | vendor/github.com/blang/semver/v4/semver.go:125-174 | precedence flips sign with its arguments, ties only equal versions, and is transitive |
| Versions.PrecedenceDecides | vendor/github.com/blang/semver/v4/semver.go:125-174 | which version is newer: the larger major, minor or patch number first; with equal numbers a release before its pre-releases, and of these the first differing identifier decides, or the longer list |
| Versions.PrecedenceExample | vendor/github.com/blang/semver/v4/semver.go:125-174 | the chain of examples of section 11 of Semantic Versioning 2.0.0, from 1.0.0-alpha to 2.1.1 |
| Versions.PreDecides | vendor/github.com/blang/semver/v4/semver.go:155-172 | the loop over identifiers is the declarative order: numbers before text, numbers as numbers, text character by character |
| Versions.NamesByPrecedence | pkg/repo/localFiler.go:121-127 | names compare as the versions they parse to, and as 0.0.0 if they do not parse |
| Versions.PrecedenceIsWeakOrder | windows/internal/updater/updater.go:399-404 | the comparator given to `sort.Slice` is a strict weak order, also on names that do not parse or that tie |
| Sorting.SortSlice | pkg/repo/localFiler.go:119-130 | the array becomes an ordered permutation of itself; the order of ties is left open |
| Filer.LocalFiler.ValidateFile | pkg/repo/localFiler.go:297-314 | true only for an existing plain file, and false for one only if a call failed |
| Filer.LocalFiler.ValidateFilehash | pkg/repo/localFiler.go:316-336 | true only when the checksum file, without outer line ends, holds the file's hash; and without a failing call true iff it is any number of line ends, the hash, and line ends again |
| Filer.LocalFiler.SoundLayout | pkg/repo/localFiler.go:132-167 | what a sound version is on disk: its directory, the binary, and beside it the file with the ending `.sha256` that holds the binary's hash between line ends |
| Filer.LocalFiler.ValidateVersion | pkg/repo/localFiler.go:132-167 | true only for a parsable name with a directory, a file and a matching checksum; false for one only if a call failed |
| Filer.LocalFiler.SortVersions | pkg/repo/localFiler.go:119-130 | the index becomes a permutation of itself with no name before a newer one |
| Filer.LocalFiler.List | pkg/repo/localFiler.go:169-171 | the answer is the index array itself |
| Filer.LocalFiler.Get | pkg/repo/localFiler.go:173-181 | a path iff the name is in the index, wherever sorting has put it |
| Filer.LocalFiler.PurgeIfCorrupt | pkg/repo/localFiler.go:84-99 | an entry that fails validation is deleted and the others stay as they are |
| Filer.LocalFiler.Purge | pkg/repo/localFiler.go:83-102 | the index becomes all names found, the deleted ones too; every entry left is sound |
| Filer.LocalFiler.Scan | pkg/repo/localFiler.go:76-102 | exactly the corrupt entries are gone when no call failed, and no sound tree is touched |
| Filer.LocalFiler.Load | pkg/repo/localFiler.go:76-117 | terminates for every directory; leaves sound, indexed entries only, evicts exactly as `Eviction.Evicts` says, and changes nothing on a tidy disk |
| Filer.LocalFiler.Remove | pkg/repo/localFiler.go:239-260 | nothing for a name outside the index; otherwise the outcome of a load of the tree without that version |
| Filer.LocalFiler.Init | pkg/repo/localFiler.go:58-72 | the outcome of a load of the directory as it was found |
| Filer.LocalFiler.LoadedAgain | pkg/repo/localFiler.go:105-114 | a pass, the removal of the oldest name and a load of the rest are one load of the whole |
| Eviction.EvictsAgain | pkg/repo/localFiler.go:105-114 | one eviction followed by an eviction of what is left is one eviction |
| Eviction.KeptAreNewest | pkg/repo/localFiler.go:83-117 | nothing kept is older than any sound version dropped |
| Eviction.ExactEviction | pkg/repo/localFiler.go:74-117 | how many sound versions stay: five or all without corrupt entries, at most one fewer with them; one fewer iff more than five names but at most five sound ones were found and the oldest name is sound, unless a sound and a corrupt name tie for oldest |
| Eviction.TieLeavesItOpen | pkg/repo/localFiler.go:105-106 | when a sound and a corrupt name tie for oldest, a load may keep all sound versions or lose one |
| Eviction.CorruptEntryEvictsSoundVersion | pkg/repo/localFiler.go:87-114 | five sound versions and one corrupt entry that is not oldest leave four |
| Filer.LocalFiler.ReloadIsStable | pkg/repo/localFiler.go:76-130 | what a load leaves is tidy, and a second load makes the index exactly the entries on disk |
| Filer.LocalFiler.IndexAgreesIff | pkg/repo/localFiler.go:87-101 | index and disk agree iff nothing was corrupt or more than five names were found |
| Filer.LocalFiler.PhantomHasNoFile | pkg/repo/localFiler.go:87-101 | a name left in the index without an entry has no file to install |
| Filer.LocalFiler.FileUnlessHollow | pkg/repo/localFiler.go:87-101 | after a calm load a name of the index has its file iff it was not corrupt or more than five names were found |
| Filer.LocalFiler.SoundKeptUnlessRotated | pkg/repo/localFiler.go:105-114 | a sound version disappears only by rotation, and then nothing older stays |
| Filer.LocalFiler.Add | pkg/repo/localFiler.go:184-237 | the file is copied byte for byte (emptied if it already lies at its destination), the name is added once, nothing else changes, and after a calm run the version passes validation unless a file was overwritten before it was copied |
| Filer.LocalFiler.CopyPair | pkg/repo/localFiler.go:211-231 | a failing checksum copy is not reported; without failing calls both files are there and agree |
| Services.Manager.IsExist | windows/internal/service/manager.go:97-114 | true iff the name is among the services listed; nothing is sent |
| Services.Manager.GetStatus | windows/internal/service/manager.go:140-171 | a state only for a service that was listed and queried |
| Services.Manager.Start | windows/internal/service/manager.go:177-236 | no error only after the service was seen running, at once or after one start command; otherwise the service was missing, or the wait after the command ran out, or showed it missing or in another state |
| Services.Manager.Stop | windows/internal/service/manager.go:238-297 | no error only after the service was seen stopped, at once or after one stop command, otherwise why not; and the exact condition under which the log stays careful for the name given |
| Services.StopElsewhereIsCareless | windows/internal/service/manager.go:261-277 | a stop of another running service sends a stop to a service that was never looked at |
| Services.Manager.Create | windows/internal/service/manager.go:299-324 | creates only a service just seen to be absent |
| Services.Manager.Delete | windows/internal/service/manager.go:326-355 | deletes only a service just listed; that it is stopped is the caller's duty |
| Services.CarefulAt | windows/internal/updater/updater.go:653-716 | in a careful log every command was justified by what came before it |
| Services.CommandedOnlyWhenNeeded | windows/internal/service/manager.go:177-297 | every start follows a sighting of the service in another state than running, every stop one in another state than stopped, with no start or stop in between |
| Services.SeenAt | windows/internal/service/manager.go:140-171 | the last seen state is a real sighting with no start or stop sent since |
| Services.DeletedOnlyWhenStopped | windows/internal/updater/updater.go:680-716 | every deletion follows a sighting of the stopped service with no start in between |
| Services.PresentAt | windows/internal/service/manager.go:97-114 | what is known of a service's presence comes from a listing, its creation or its deletion, with none of them since |
| Services.CreatedOnlyWhenAbsent | windows/internal/service/manager.go:299-324 | every creation follows a listing without the service or its deletion, with no listing, creation or deletion in between |
| InstallLog.ReinstalledAfresh | windows/internal/updater/updater.go:324-363 | an installation that succeeds saw the service running in its own course, after deleting the service if it was there at the start |
| InstallLog.NotRunningNotReinstalled | windows/internal/updater/updater.go:357-360 | a run that did not see the service running cannot pass for an installation, whatever was seen before it |
| InstallLog.NotDeletedNotReinstalled | windows/internal/updater/updater.go:331-335 | nor can one that found the service and did not delete it |
| Updater.RunCommands | windows/cmd/yandex-guest-agent-updater/yandex-guest-agent-updater.go:17-95 | over any run of commands, each free to fail, every service command stays justified, and each command leaves in the log what it promises or why it fails |
| Updater.AgentDirApartFromRepository | windows/internal/updater/updater.go:99 | a string prefix, but by components neither directory lies in the other |
| Updater.GuestAgent.GetInstalledVersion | windows/internal/updater/updater.go:365-391 | the version the installed binary reports, empty iff there is none |
| Updater.GuestAgent.InstalledSays | windows/internal/updater/updater.go:365-391 | it is what the executable in the agent's directory reports when run |
| Updater.GuestAgent.GetLatest | windows/internal/updater/updater.go:437-463 | the published version, empty for an error status or an unparsable text |
| Updater.GuestAgent.LatestSays | windows/internal/updater/updater.go:454-463 | a version is the latest release iff the answer is that version between line ends, and it parses |
| Updater.GuestAgent.GetRepoLatest | windows/internal/updater/updater.go:416-435 | a name nothing in the index is newer than, empty iff the index is; the index is only permuted |
| Updater.GuestAgent.GetRepoPrevious | windows/internal/updater/updater.go:393-414 | a different name, not newer, with nothing older than `to` above it; empty only if `to` is absent, nothing is older, or the empty name is itself the previous one |
| Updater.GuestAgent.BeforeInOrder | windows/internal/updater/updater.go:399-410 | the name before `to` in ascending order is the previous version |
| Updater.GuestAgent.Check | windows/internal/updater/updater.go:160-241 | the sum that `DryRun.Answer` describes, with nothing changed but the order of the index; an error without a failing call only for an unparsable installed version |
| DryRun.AnswerPredictsRun | windows/internal/updater/state.go:5-13 | the answer is a sum in 0..5 that decodes in one way, and its parts say what the run will do |
| DryRun.AnswerParts | windows/internal/updater/updater.go:188-240 | the answer in numbers for any repository and any latest release, known or not: 1 for a missing known release, 4 if nothing is installed, 2 if something newer is there |
| Updater.GuestAgent.DryRunThenUpdate | windows/internal/updater/updater.go:160-295 | after `Init` and without failing calls, Download iff the update downloads a known release, Install iff nothing is installed, and the newest version is tried iff Install or Update is announced, the download has a matching checksum and the versions compare, which they do unless the installed one is older than the zero version |
| Updater.GuestAgent.EnsureService | windows/internal/updater/updater.go:653-677 | the service is there afterwards, created only if it was seen to be absent |
| Updater.GuestAgent.EnsureNoService | windows/internal/updater/updater.go:680-716 | the service is gone afterwards, deleted only after it was seen stopped |
| Updater.GuestAgent.EnsureDirectory | windows/internal/updater/updater.go:719-747 | the agent directory is there and nothing else was touched |
| Updater.GuestAgent.RemoveDirectory | windows/internal/updater/updater.go:819-862 | the whole agent directory is gone and the rest of the tree is as before |
| Updater.GuestAgent.Remove | windows/internal/updater/updater.go:803-863 | no service, no agent directory, and whatever fails nothing outside it changed |
| Updater.GuestAgent.PlaceBinary | windows/internal/updater/updater.go:338-349 | the installed binary equals the repository's file |
| Updater.GuestAgent.Install | windows/internal/updater/updater.go:324-363 | it succeeds exactly when its own part of the service log shows the service removed, created and seen running, and then the version's bytes are in a clean agent directory; without a failing call it fails only for want of a file or of a service that plays along, and for want of a file it leaves everything as it was or no service and an empty agent directory |
| Updater.GuestAgent.RepositoryUntouched | windows/internal/updater/updater.go:324-363 | whatever fails, installing and removing change nothing in the repository |
| Updater.GuestAgent.InstallOrRollBack | windows/internal/updater/updater.go:295-318 | a rollback goes to the previous version, only after an installation that did not succeed in this run's log, and is missing only if there is no previous name; each installation that failed met a failing call of its own, a missing file or a service that did not play along |
| Updater.GuestAgent.RollBack | windows/internal/updater/updater.go:300-315 | the previous version is installed, or there is none and nothing happens |
| Updater.GuestAgent.Choose | windows/internal/updater/updater.go:251-293 | the newest name, and whether it is to be installed: iff nothing is installed or what is installed is older, and both versions parse; without a failing call an error iff two versions that are to be compared do not parse |
| Updater.GuestAgent.InstallNewest | windows/internal/updater/updater.go:251-320 | installs the newest name iff nothing is installed or the installed version is older, with the outcome and the service log of `InstallOrRollBack`; with nothing to do there is no error unless the versions cannot be compared |
| Updater.GuestAgent.DownloadVersion | windows/internal/updater/updater.go:465-526 | no error only with both published files in the temporary place, where alone the disk changes |
| Updater.GuestAgent.AddDownloaded | windows/internal/updater/updater.go:557-580 | the downloaded pair is in the repository and the temporary files are gone |
| Updater.GuestAgent.EnsureLatestAdded | windows/internal/updater/updater.go:529-581 | the latest release is in the index afterwards, downloaded iff it was not; nothing else changes and no temporary file stays |
| Updater.GuestAgent.MaybeAddInstalledVersion | windows/internal/updater/updater.go:586-650 | the installed version is in the index afterwards, with the binary's own bytes if it was added |
| Updater.GuestAgent.Init | windows/internal/updater/updater.go:143-157 | whatever version is installed is in the index and its binary is untouched; after a calm run a name of the index lacks its file iff its entry was corrupt and at most five names were found, and in a repository in order index and disk agree |
| Updater.GuestAgent.Update | windows/internal/updater/updater.go:244-321 | what is downloaded, tried and rolled back to, when, which names have files, and what every outcome leaves on disk and in this run's part of the service log; without failing calls the agent is untouched or replaced, never gone, and an up-to-date machine gets no error |
| Updater.GuestAgent.UpdateCommand | windows/internal/updater/updater.go:143-157 | no downgrade on any path; a failed update names a rollback target between the installed and the failed version unless the latest release is unknown and the installed version is not newer than zero; after a calm run the target's file is there iff it is not one of the hollow names `Init` leaves |
| Updater.GuestAgent.UpdateReady | windows/internal/updater/updater.go:244-321 | the same for a machine that is initialised |
| Updater.GuestAgent.NoDowngrade | windows/internal/updater/updater.go:251-318 | whatever version was installed last, the newest or the one rolled back to, is not older than the one before |
| Updater.GuestAgent.RunUpdates | windows/internal/updater/updater.go:143-157 | each command of a run does what `UpdateCommand` says; over any run without failing calls, on a machine in order, the agent never disappears and is never downgraded, however the services behave |
| Updater.GuestAgent.StaysSteady | windows/internal/updater/updater.go:244-321 | one update keeps the machine in order and the agent not older, whichever installations fail |
| Updater.GuestAgent.LoadedSynced | pkg/repo/localFiler.go:76-117 | a calm load of a repository without hollow names leaves index and disk equal |
| Updater.GuestAgent.VersionSynced | pkg/repo/localFiler.go:184-237 | adding one sound version keeps them equal |
| UserRequests.TimestampWithinFrame | linux/internal/handlers/users/users_request.go:83-95 | for every int64 expiry, accepted iff within five minutes of the clock, clamping and overflow included |
| UserRequests.ExecutedWithinFrame | linux/internal/handlers/users/users_handler.go:170-179 | whatever is acted upon expires within five minutes of the clock |
| UserRequests.StaysStored | linux/internal/handlers/users/users_handler.go:156-168 | after an execution its hash stays stored, and is not written again, until the write of another hash displaces it or the store fails to open just before it is written |
| UserRequests.AtMostOnce | linux/internal/handlers/users/users_handler.go:149-185 | across repeats, crashes and restarts, between two executions of equal requests the write of another hash displaced theirs, or the store did not open when theirs was to be checked; until then theirs was stored |
| UserRequests.AtMostOnceWithAtomicWrites | linux/internal/handlers/users/users_handler.go:149-185 | if a failing write leaves what was stored, a different request's hash was stored in between, or the Linux store did not open |
| UserRequests.AtMostOnceOnWindows | windows/internal/handlers/users/users_request.go:46-58 | on Windows always by the write of a different request's hash that displaced theirs |
| UserRequests.UnopenedStoreRepeats | linux/internal/handlers/users/users_request.go:59-68 | the Linux handler performs a request, meets a store that does not open, and performs it again with nothing in between |
| UserRequests.PerformedAgainIff | linux/internal/handlers/users/users_handler.go:156-185 | a request whose hash is stored is performed again iff it is a Linux store that does not open and nothing else stops it; on Windows that is an error |
| UserRequests.Results | linux/internal/handlers/users/users_handler.go:149-185 | for every store, when each result of a delivery comes about, what is stored then and what has happened |
| UserRequests.NewRequestIsExecuted | linux/internal/handlers/users/users_handler.go:156-185 | whatever was delivered before, a healthy delivery of a request that is not the one stored is executed |
| UserRequests.DeliverKeepsHistory | linux/internal/handlers/users/users_handler.go:149-188 | whichever steps of a delivery fail, it does only what the rule permits |
| UserRequests.RunIsHistory | linux/internal/handlers/users/users_handler.go:85-121 | so does every run of deliveries with every fate of their steps |
| UserRequests.UserHandler.ValidateRequestHash | linux/internal/handlers/users/users_request.go:58-79 | an error, new or a repeat as `IsNew` says: new iff nothing is stored, something else is, or the Linux store does not open |
| UserRequests.UserHandler.WriteHash | linux/internal/handlers/users/users_handler.go:162-168 | stored if there is no error; a failure or crash may leave anything |
| UserRequests.UserHandler.ProcessRequest | linux/internal/handlers/users/users_handler.go:127-188 | exactly when a request is performed, found to be a repeat or out of its timeframe, for every store, platform and fate of its steps; the history stays permitted wherever it stops |
| UserRequests.Run | linux/internal/handlers/users/users_handler.go:85-121 | what any run of deliveries did is `RunTrace`, a permitted history |
| LastHash.Handler.Handle | linux/internal/handlers/kmssecrets/handler.go:44-76 | the remembered hash is that of the most recent delivery whose response was written |
| LastHash.Run | linux/internal/handlers/sshkeys/handler.go:46-82 | over a whole run exactly the deliveries that are no such repeat are processed |
| LastHash.ProcessesCollapsed | linux/internal/handlers/lockboxsecrets/handler.go:41-81 | with a working port, the accepted deliveries with consecutive repeats collapsed |
| LastHash.AcceptedData | linux/internal/handlers/lockboxsecrets/handler.go:55-58 | only the lockbox handler drops anything, and that is what it cannot parse |
| LastHash.ProcessedAt | linux/internal/handlers/sshkeys/handler.go:46-82 | what was processed is the data of exactly the deliveries acted upon, in order |
| LastHash.CollapseSeparates | linux/internal/handlers/managedcertificates/handler.go:50-53 | collapsing leaves no equal neighbours and loses no data |
| LastHash.SkippedIffRepeat | linux/internal/handlers/managedcertificates/handler.go:44-76 | with port failures, a delivery is processed iff its context is live, it is not equal to the most recent answered one, and the lockbox handler can parse it |
| Watchers.Poller.GetOnce | pkg/meta/poller.go:67-93 | the request carries the remembered ETag, and a 200 response replaces it even if its body is not read |
| Watchers.Poller.Get | pkg/meta/poller.go:41-61 | one request for each answer used, in turn, until a body is read or the retries are used up; the result is the one body read |
| Watchers.OneMorePoll | pkg/meta/poller.go:67-93 | every request carries the ETag of the latest 200 response before it |
| Watchers.DeliveredPositions | pkg/meta/poller.go:90-92 | what is delivered is an in-order subsequence of the 200 responses that misses one only where its body was not read |
| Watchers.StepKeepsInvariant | pkg/meta/eventbus.go:50-78 | every step of every watcher keeps mutual exclusion and order |
| Watchers.WatchersInvariant | pkg/meta/eventbus.go:50-78 | in every interleaving one handler at a time, each gets its own poller's results in order, and each request carries the ETag of the latest 200 response |
| Watchers.GoneIffCancelled | pkg/meta/eventbus.go:50-57 | a watcher is gone iff its context was cancelled |
| Watchers.NobodyStuck | pkg/meta/eventbus.go:50-78 | a watcher that was not cancelled can poll or take the free mutex, or release the one it holds; the mutex is always held by a watcher that can release it |
| Watchers.GoesRound | pkg/meta/eventbus.go:58-69 | after a request without a body, and after its handler, a watcher polls again; a body that was read goes to the handler next |
| Watchers.LatestTagIs | pkg/meta/poller.go:30-34 | the remembered ETag is that of the last 200 response, and "0" before the first |
| AuthorizedKeys.AppendIsLossless | linux/internal/usermanager/user_manager.go:171-218 | old content, then the key on its own line, iff the scanner passes every line on unchanged |
| AuthorizedKeys.RewriteIsLossless | linux/internal/usermanager/user_manager.go:198-204 | writing scanned lines and the key over the file loses nothing iff the lines are the file's |
| AuthorizedKeys.ReadsAllIff | linux/internal/usermanager/user_manager.go:176-187 | what was read before an error holds all lines iff at most the last line end was missing and every line is passed on unchanged |
| AuthorizedKeys.ReadErrorIsLossless | linux/internal/usermanager/user_manager.go:176-204 | after an unnoticed read error the addition is lossless iff so |
| AuthorizedKeys.AppendIsIdempotent | linux/internal/usermanager/user_manager.go:176-197 | when a rescan reads old lines plus key, and when adding again changes nothing |
| AuthorizedKeys.WriteRawLines | linux/internal/usermanager/user_manager.go:204 | writing out the lines of a text gives the text with its last line ended |
| AuthorizedKeys.JoinEndsLines | linux/internal/usermanager/user_manager.go:204 | joining with line ends and adding one ends every line |
| AuthorizedKeys.ScansAllIffPlain | linux/internal/usermanager/user_manager.go:176-187 | the scanner yields the lines as they stand iff none is too long or ends in a carriage return |
| AuthorizedKeys.ScansUpTo | linux/internal/usermanager/user_manager.go:176-187 | the scanner yields each line without its one trailing carriage return, up to the first line of 65536 characters |
| AuthorizedKeys.OverwrittenAt | linux/internal/usermanager/user_manager.go:199-204 | the new text stands at the start of the file and what lay beyond it stays |
| AuthorizedKeys.AppendedIs | linux/internal/usermanager/user_manager.go:197-204 | a key that is found leaves the file alone; any other is written behind the scanned lines, over the old content |
| AuthorizedKeys.KeyFile.ScanText | linux/internal/usermanager/user_manager.go:178-187 | the loop collects the scanner's lines and finds the key iff it is one of them |
| AuthorizedKeys.KeyFile.ScanFile | linux/internal/usermanager/user_manager.go:176-187 | the lines of what could be read, an unfinished last one included, and whether the key is among them; all lines if no call failed |
| AuthorizedKeys.KeyFile.AppendKey | linux/internal/usermanager/user_manager.go:171-218 | the appended file without failing calls; otherwise the file untouched, or a beginning of the lines read and the key written over it, all of it if there is no error |
| SshKeys.ParseSshKeys | linux/internal/handlers/sshkeys/handler.go:137-158 | the users of all non-blank lines in order, or the error of the first bad one |
| SshKeys.ParseLineSucceeds | linux/internal/handlers/sshkeys/handler.go:145-154 | a line parses iff it has one colon, not at its start, and then it is name, colon, key |
| SshKeys.ParseSucceeds | linux/internal/handlers/sshkeys/handler.go:140-155 | parsing fails iff some non-blank line is malformed |
| SshKeys.FirstErrorWins | linux/internal/handlers/sshkeys/handler.go:145-153 | which error is returned: that of the first malformed line, for its colons or for its empty name |
| SshKeys.ParseIgnoresSpaces | linux/internal/handlers/sshkeys/handler.go:141-144 | blank lines and outer spaces make no difference to the users found nor to the error |
| SshKeys.ParseUndoesPrint | linux/internal/handlers/sshkeys/handler.go:137-158 | parsing the printed users gives them back |
| SshKeys.ParsedUsers | linux/internal/handlers/sshkeys/handler.go:107-130 | a parsed key is a single line, fit for `appendKey` |
| Text.SplitJoin | linux/internal/handlers/sshkeys/handler.go:140 | splitting undoes joining |
| Text.JoinSplit | linux/internal/handlers/sshkeys/handler.go:140 | joining undoes splitting, for every text |
| Text.SplitCounts | linux/internal/handlers/sshkeys/handler.go:145-146 | one part more than there are separators |
| Text.TrimTwice | linux/internal/handlers/sshkeys/handler.go:141 | trimming twice is trimming once |
| Text.TrimTakesEnds | pkg/repo/localFiler.go:334 | trimming takes every such character off both ends and nothing else |
| Passwords.Shuffle | pkg/passwords/passwords.go:117-126 | the runes in the order the random numbers say, swapped in place from the last one down |
| Passwords.ShuffledPermutes | pkg/passwords/passwords.go:117-126 | shuffling only reorders |
| Passwords.EveryOrder | pkg/passwords/passwords.go:117-126 | and any order can come out |
| Passwords.CountInPermuted | pkg/passwords/passwords.go:83-86 | reordering keeps how many characters are in an alphabet |
| Passwords.Generator.Part | pkg/passwords/passwords.go:68-81 | as many characters as asked for, each the one of the alphabet its random number says |
| Passwords.Generator.Generate | pkg/passwords/passwords.go:57-86 | exact numbers of digits, symbols and letters, no upper case if unwanted, and the asked length iff the counts do not overflow |
| Passwords.Generator.EveryPassword | pkg/passwords/passwords.go:57-86 | every password of the right composition can come out, in every order |
| Passwords.DefaultAlphabetsApart | pkg/passwords/passwords.go:10-15 | the default alphabets share no character |
| Passwords.GenerateForUser | linux/internal/handlers/users/users_handler.go:44-54 | 15 characters: 3 digits, 5 symbols, 7 letters |

## Left out

- Updater.GuestAgent.UpdateCommand: the version that is reported afterwards is compared only if the repository's binary reports the name it is filed under, because nothing in the code checks that; the name itself is compared without that condition.
- Updater.GuestAgent.RunUpdates: needs that no call fails, because a read that fails in `load` deletes a sound version, and with it the only copy of a newer agent may go; that the latest release is known; and that binaries report the names they are filed under, which nothing in the code checks. Over runs with failing calls each command that ends without error still keeps the promise of `UpdateCommand`.
- Updater.GuestAgent.DryRunThenUpdate: one process; between two processes a second `Init` may load a different index.
- Updater.GuestAgent.constructor: the temporary directory is taken to lie outside the agent directory and the repository.
- UserRequests.UserHandler.ProcessRequest: decoding, hashing, password encryption and the user commands are single steps that succeed or fail; the branches of `changeOrCreateUser` would only add easy members.
- Path names with separators or dots inside a version name: a name is one path component.
- File modes, owners, symbolic links, and any change to disk or services by someone else while a command runs (services change on their own between calls, files do not).
- Real time: backoff, the 60 s waits and the heartbeat; clock readings are inputs.
- Text is a sequence of characters that each stand for one byte; there is no Unicode decoding.
- `math/rand`: random numbers are inputs reduced to the range asked for, and the shuffle is the library's swap from the last character down; how likely an outcome is is not modelled.
- HTTP, JSON, gob, SHA-256, RSA, base64, logging, the serial port, the registry and the service API themselves.
- `ensureSshFolder`, `ensureAuthorizedKeysFile`, `chown`, the passwd iterators, the executor and its arguments.
- `semver.Parse` itself: theorems hold for every parser; build metadata is dropped from versions because precedence ignores it.
- Fairness of the watchers' mutex and cancellation of a running handler.
