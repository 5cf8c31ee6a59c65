# goblin installer core in Dafny

goblin is a command-line package installer. A YAML manifest lists packages,
each with a version ("latest" or a version string), a base URL and one
artifact per OS/architecture. Installing a package picks the artifact for the
running platform, downloads it, moves the binary into place and records an
entry in a JSON lock file (name, observed version, the manifest version it
was resolved from, date, platform, binary path). Updating compares the
manifest with the lock entry and reinstalls when needed; uninstalling deletes
the binary and the entry; syncing reinstalls every package whose binary has
gone missing.

This project models the installer of `backup/main.go` (install, uninstall,
update one, update all, sync, the version comparator and the observed-version
chain) and the older root installer of `main.go` (artifact selection and the
`install` command).

Layout:

- `options.dfy`: the `Option` type.
- `go_strings.dfy`: the parts of Go's standard library the version logic uses.
  These are `strings.EqualFold`, `TrimPrefix(s, "v")`, `Split`, `Index`,
  `Replace(s, old, "", 1)`, `filepath.Ext` and `fmt.Sscanf("%d")`.
- `search.dfy`: the "first element that matches" scan, both as a function and as a loop.
- `types.dfy`: manifest, lock entries, update results, failures and the disk.
  It also holds `Env`, the surroundings of one invocation: platform, clock,
  transfer, placement, lock-write outcome and undeletable paths.
- `versions.dfy`: `CompareVersions`, `ExtractVersionFromFilename` and `GetActualVersion`.
- `selection.dfy`: artifact selection and the download URL.
- `lock_store.dfy`: loading and saving the lock, the upsert and the removal.
- `installer.dfy`: the operations of `backup/main.go`.
  Each is a method that follows the source step by step. It is proved equal
  to a function that states the outcome: the error it returns and the disk
  it leaves.
- `installer_facts.dfy`: what those outcome functions guarantee.
- `root_installer.dfy`: the installer of `main.go`.

The lock file and the set of existing paths form a `Disk` value. Every
operation takes a `Disk` and returns the one it leaves behind. The network,
the post-install move and the way lock writes end are parameters, held in
`Env`; each is fixed for one invocation (see "Left out").

## Model

| member | source | states |
|---|---|---|
| GoStrings.Split | backup/main.go:210-211 | at least one piece, no piece holds the separator, joining the pieces gives the input back |
| GoStrings.SplitAround | backup/main.go:210-211 | splitting at an added separator splits both sides independently |
| GoStrings.DeleteFirst | backup/main.go:245-246 | deletes exactly the first occurrence of the target; the input is unchanged when the target is empty or absent |
| GoStrings.Ext | backup/main.go:242 | the extension is a suffix of the path that starts with its only '.' and holds no '/', or is empty |
| GoStrings.ExtWithoutDot | backup/main.go:242 | a name with no '.' has no extension, so nothing is stripped |
| GoStrings.ExtOfSuffix | backup/main.go:242 | a path ending in '.' plus a word with no dot or slash has exactly that extension |
| GoStrings.ScanNumeral | backup/main.go:224-226 | a component that starts with digits scans as their decimal value, whatever follows, when it fits in 64 bits |
| GoStrings.ScanWithoutNumber | backup/main.go:223-226 | a component with no leading number scans as 0, because Sscanf fails and the variable keeps 0 |
| GoStrings.EqualFoldEquivalence | backup/main.go:417 | matching names up to case is reflexive, symmetric and transitive |
| Versions.Pad | backup/main.go:213-219 | the padding loops give at least three components and leave a list of three or more alone |
| Versions.CompareVersions | backup/main.go:196-237 | the method returns Comparison(v1, v2): "unknown" rules first, then the first differing component of the three decides |
| Versions.UnknownRules | backup/main.go:197-203 | "unknown" on the left is below everything, itself included; on the right alone it is above everything |
| Versions.ComparisonReflexive | backup/main.go:196-237 | a version compares equal to itself exactly when it is not "unknown" |
| Versions.ComparisonAntisymmetric | backup/main.go:196-237 | swapping the arguments flips the sign, unless both are "unknown" |
| Versions.ComparisonTotalPreorder | backup/main.go:196-237 | "compares at most" is total and transitive on all strings |
| Versions.ComparisonZeroIffSameComponents | backup/main.go:221-236 | two known versions compare equal exactly when their three scanned components agree |
| Versions.ComparisonIgnoresExtraComponent | backup/main.go:213-233 | a fourth component never matters, and a missing component counts as "0" |
| Versions.ComparisonIgnoresLeadingV | backup/main.go:205-207 | one leading 'v' never changes the result |
| Versions.ComparisonOfThree | backup/main.go:221-233 | two "x.y.z" versions compare lexicographically by the scanned values of their parts |
| Versions.ExampleShortVersion | backup/main.go:205-219 | "v1.2" equals "1.2.0" |
| Versions.ExampleFourComponents | backup/main.go:221-236 | "1.2.3.9" equals "1.2.3" |
| Versions.ExampleNonNumericComponent | backup/main.go:223-226 | "1.x" equals "1.0", because a component without digits scans as 0 |
| Versions.ExampleNumericOrder | backup/main.go:224-232 | "1.10.0" is above "1.9.9": components compare as numbers |
| Versions.ExtractVersionFromFilename | backup/main.go:240-255 | the result is "unknown" or something that starts with 'v' or contains '.' |
| Versions.ExtractFromNamedFile | backup/main.go:240-255 | for "<pkg>-<rest>.<ext>", the extension and the leading "<pkg>-" go, then the first <pkg> inside <rest>; what is left is the result if it looks like a version, else "unknown" |
| Versions.ExampleNoExtension | backup/main.go:242-250 | a name without an extension still loses its last dotted part: "goblin-v1.2.3" yields "v1.2" |
| Versions.BareBinaryName | backup/main.go:240-254 | a dot-free file named exactly after the package yields "unknown" |
| Versions.ExtractFromReleaseFile | backup/main.go:240-255 | for "<pkg>-<ver>.<ext>", the result is <ver> when it looks like a version and "unknown" otherwise |
| Versions.GetActualVersion | backup/main.go:259-273 | a non-empty header wins; with no header, a file-name version other than "unknown" wins; otherwise the manifest version |
| Versions.ActualVersionFromReleaseFile | backup/main.go:259-273 | without a header, a release file name decides the version, and otherwise the manifest version does |
| Selection.ChosenIsFirstMatch | backup/main.go:336-344 | no artifact is chosen exactly when none matches OS and arch up to case; otherwise the first match is chosen |
| Selection.ChosenSkipsForeign | backup/main.go:336-341 | artifacts for other platforms placed in front never change the choice |
| Selection.SelectArtifact | backup/main.go:336-344 | the selection loop with early exit returns the chosen artifact |
| Selection.DownloadURL | backup/main.go:347 | the URL is the base URL followed directly by the file name, with no separator |
| InstallerFacts.FirstInstallCreatesLock | backup/main.go:150-153 | with no lock file, a successful install writes a lock holding the new entry alone |
| LockStore.SaveThenLoad | backup/main.go:171-189 | a save succeeds exactly when the write goes through, and a later load returns what was saved; a write that cannot open the file changes nothing |
| LockStore.Upsert | backup/main.go:383-397 | the found-flag loop returns Upserted: the first exact-name entry is replaced, or the entry is appended |
| LockStore.UpsertReplacesOrAppends | backup/main.go:383-397 | exactly one position changes, the first one with the same exact name or a new one at the end |
| LockStore.UpsertKeepsOtherNames | backup/main.go:385-392 | entries with another name keep their place |
| LockStore.UpsertKeepsDistinct | backup/main.go:383-397 | distinct names stay distinct, and afterwards only the new entry carries its name |
| LockStore.UpsertThenLookup | backup/main.go:383-397 | an exact-name lookup after the upsert finds the new entry |
| LockStore.RemovedAtKeepsOthers | backup/main.go:424 | removal drops exactly one entry and keeps the others in order (as a multiset too) |
| LockStore.RemovedAtKeepsDistinct | backup/main.go:424 | removal keeps names distinct, and no entry is left with the removed name |
| Installer.InstallPackage | backup/main.go:327-407 | the method's error and final disk are InstallOutcome: select, transfer, place, and only then load, upsert and save |
| Installer.UninstallPackage | backup/main.go:409-439 | the method's error and final disk are UninstallOutcome |
| Installer.UpdatePackage | backup/main.go:442-573 | the method's result, error and final disk are UpdateOutcome |
| Installer.UpdateSweep | backup/main.go:631-637 | the sweep never fails and yields one result per entry |
| Installer.UpdateEntry | backup/main.go:633-637 | one pass of the loop body updates the first entry and appends its result in front of the sweep of the rest |
| Installer.UpdateEach | backup/main.go:631-637 | the loop over the lock entries computes UpdateSweep, each entry updated on the disk the previous one left |
| Installer.UpdateAllPackages | backup/main.go:619-640 | the method returns UpdateAllOutcome, the early return on an empty lock included |
| Installer.SyncStep | backup/main.go:584-612 | an entry whose binary exists gets no result and changes nothing; a missing one gets exactly one result: a "not in the manifest" error named after it when no manifest package has its exact name, else the result and disk of a forced update of that name |
| Installer.SyncSweep | backup/main.go:583-613 | the sweep never fails and yields at most one result per entry (the per-entry outcome is InstallerFacts.SyncSweepAt) |
| Installer.SyncEntry | backup/main.go:584-612 | one pass of the loop body computes SyncStep |
| Installer.SyncPackages | backup/main.go:575-616 | the method returns SyncOutcome: the load error, or the sweep whose per-entry outcome InstallerFacts.SyncSweepAt and Installer.SyncStep state |
| InstallerFacts.InstallTransfersOnlyChosenURL | backup/main.go:336-356 | with no artifact, install fails before any transfer and changes nothing; otherwise only the chosen URL's transfer matters |
| InstallerFacts.InstallFailureKeepsLock | backup/main.go:353-401 | a failed transfer or placement changes nothing; a failed install changes the lock only when its save truncated it |
| InstallerFacts.InstallSuccess | backup/main.go:353-406 | install succeeds exactly when every step succeeds; the lock then holds the upserted entry with the observed version, the manifest version, the clock, the platform and the path |
| InstallerFacts.InstallKeepsDistinct | backup/main.go:383-401 | install keeps the lock's names distinct |
| InstallerFacts.InstallThenReread | backup/main.go:490-501 | after a successful install, a lookup up to case of the package's name finds an entry |
| InstallerFacts.UninstallNotInstalledIff | backup/main.go:415-432 | "not installed" exactly when no entry matches the name up to case; errors other than a failed save change nothing |
| InstallerFacts.UninstallBinaryErrorIff | backup/main.go:419-421 | deleting the binary fails exactly when it exists and cannot be deleted; a binary already gone does not stop the removal |
| InstallerFacts.UninstallRemovesFirstMatch | backup/main.go:415-436 | success deleted the binary of the first case-insensitive match and saved the lock without exactly that entry |
| InstallerFacts.UninstallKeepsDistinct | backup/main.go:415-436 | uninstall keeps the lock's names distinct |
| InstallerFacts.UpdateNeverUnknown | backup/main.go:479-573 | the result names the package asked for; the "unknown" status is unreachable; a success reports the version the re-read finds |
| InstallerFacts.UpdateSkipIff | backup/main.go:510-566 | skipped exactly when the package is in the manifest and in the lock and the update test fails; a skip changes nothing and reports the installed version twice |
| InstallerFacts.ForcedUpdateNeverSkips | backup/main.go:515 | a forced update, or a manifest asking for "latest", is never skipped |
| InstallerFacts.UpdateErrorKeepsLock | backup/main.go:452-542 | an error result always carries an error; a failed update changes the lock only when a save truncated it |
| InstallerFacts.FailedUpdateOrphansEntry | backup/main.go:522-542 | if the reinstall fails after the old binary was deleted, the lock still lists the entry but its binary is gone |
| InstallerFacts.UpdateKeepsDistinct | backup/main.go:442-573 | update keeps the lock's names distinct |
| InstallerFacts.SucceededByInstall | backup/main.go:479-555 | a successful update ran a successful install from the lock it started with |
| InstallerFacts.UpdateThenSkip | backup/main.go:515-566 | after a successful update to a pinned version, a second unforced run is skipped and changes nothing, when the lock spells the name as the manifest does |
| InstallerFacts.FoldLookupAfterUpsert | backup/main.go:383-397 | when every case-insensitive match is spelled like the new entry, the first such match after the upsert is the new entry |
| InstallerFacts.CaseVariantNeverRefreshed | backup/main.go:470-555 | a lock entry matching the name only up to case is never replaced; a "successful" update reports its stale version and leaves it in front |
| InstallerFacts.UpdateSweepOnePerEntry | backup/main.go:633-637 | the update sweep yields one result per entry, named after it, in lock order |
| InstallerFacts.UpdateAllOnePerEntry | backup/main.go:619-640 | update-all fails only on an unreadable lock; otherwise one result per entry, and nothing for an empty lock |
| InstallerFacts.UpdateSweepKeepsDistinct | backup/main.go:633-637 | the update sweep keeps the lock's names distinct |
| InstallerFacts.SyncSweepSplit | backup/main.go:583-613 | sweeping two lists in a row is sweeping their concatenation |
| InstallerFacts.SyncSweepAt | backup/main.go:583-613 | entry i is handled by SyncStep on the disk the earlier entries left, and its result sits between theirs and the later ones' |
| InstallerFacts.SyncReportsUnlisted | backup/main.go:588-603 | when no entry is in the manifest by exact name, sync changes nothing and reports one error per missing binary, in lock order |
| InstallerFacts.SyncOnlyMissing | backup/main.go:583-585 | when every binary exists, sync yields nothing and changes nothing |
| InstallerFacts.SyncResultsNamedNeverSkipped | backup/main.go:583-613 | every sync result names a lock entry, and none is "skipped" |
| InstallerFacts.SyncFailsOnlyOnUnreadableLock | backup/main.go:576-579 | sync fails only on an unreadable lock, and then changes nothing |
| RootInstaller.InstallPackage | main.go:76-110 | the method returns RootInstallOutcome, which depends neither on the build flag nor on the download's result |
| RootInstaller.RootInstallSucceedsIff | main.go:85-109 | fails exactly when no artifact matches, and then requests nothing; otherwise it requests the first match's URL into a file named after the package |
| RootInstaller.RootAgreesWithInstaller | main.go:85-101 | both installers select the same artifact and build the same URL |
| RootInstaller.InstallCommand | main.go:137-150 | the found-flag loop returns CommandOutcome |
| RootInstaller.CommandExitStatus | main.go:137-150 | exit status 1 exactly when no manifest package matches the name up to case; otherwise 0, even when the install failed |

## Left out

- Network transfers are the `Env.fetch` oracle. The `DownloadFile` with four arguments that `backup/main.go:353` calls is not part of this model; its result is modelled as the X-Version header and the file name, which feed GetActualVersion.
- The downloaded file in the working directory is not tracked; only the placed binary is in `Disk.files`.
- postInstall (`backup/main.go:642-662`) is the `Env.place` oracle. The source ends the process with log.Fatal when the move or chmod fails, so it never returns an error. `PlacementFailure` models the error return that InstallPackage checks; process exit is not modelled.
- YAML and JSON decoding, `GetGoblinDir` and its home-directory error are left out. The lock is `Stored`, `NoLockFile` or `Unreadable`.
- LockStore.Save: SaveLockFile is a plain `WriteFile`, with no atomic rename. A failed write may leave the file truncated, which the model shows as `Unreadable`; no crash-atomicity is claimed.
- The whole-operation guarantees "the lock is untouched on failure" hold only when the save did not truncate the file. InstallerFacts.InstallFailureKeepsLock and InstallerFacts.UpdateErrorKeepsLock state that exception.
- Each invocation reads the clock once (`Env.now`); the platform is a parameter.
- `Env` is fixed for one invocation. Every lock write of a run ends alike (`Env.write`), a URL's transfer always gives the same result (`Env.fetch`), and a package's placement always gives the same path or failure (`Env.place`). So Installer.UpdateAllPackages and Installer.SyncPackages cannot show a run where one save fails and a later one succeeds, or where the same URL is fetched twice with different results.
- GoStrings.Ext treats only '/' as a path separator; on Windows `filepath.Ext` also stops at '\\'.
- Versions.ExtractVersionFromFilename: its own contract states only the shape of the result. Its value is stated by Versions.ExtractFromNamedFile for names of the form "<pkg>-<rest>.<ext>" and by Versions.BareBinaryName for a dot-free name equal to the package; other names are not characterised.
- The nil dereference after a failed re-read of the lock (`backup/main.go:491`, `545`) is not modelled as a crash. `Reread` returns None there. InstallerFacts.UpdateNeverUnknown shows that this branch is never reached.
- GoStrings.EqualFold folds ASCII letters only; Unicode simple folding is left out.
- GoStrings.ScanDecimal covers decimal digits with an optional sign after Go's scan spaces. A leading newline and the remaining error cases of `fmt.Sscanf` are not modelled in detail. `int` is taken as 64 bits.
- The diverging behaviours the code has are kept, not corrected:
  - `CompareVersions("unknown", "unknown")` is -1.
  - The upsert matches names exactly, while uninstall and update match them up to case (see InstallerFacts.CaseVariantNeverRefreshed).
  - Sync looks packages up in the manifest by exact name.
- Printing, flag parsing and exit codes outside the `install` command are left out. That covers `ListPackages`, `Help` and the `main` of `backup/main.go`.
- `LoadManifest`, `EnsureManifest` and `UpdateManifest` read or fetch the manifest, and are I/O only. `CheckConnectivity`, which `UpdateManifest` calls, is not part of this model.
- The packages under `internal/` and `cmd/` are not part of this model.
- RootInstaller.InstallPackage: the download's own errors (`main.go:51-73`) are dropped by the caller, so only the request is modelled.
