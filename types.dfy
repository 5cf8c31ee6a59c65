/**
 * The installer's records (the manifest, its packages and artifacts, the lock
 * file's entries, the outcome of an update) and the outside world the core
 * talks to: the running platform, the clock, the artifact transfer, the
 * post-install placement of the binary, the file system and the lock file on
 * disk.
 */
module Types {
  import opened Options
  import opened GoStrings

  // ---------------------------------------------------------------------------
  // Manifest (desired state)

  /** One downloadable build of a package. */
  datatype Artifact = Artifact(os: string, arch: string, file: string)

  /** A manifest entry: `version` is "latest" or a version string. */
  datatype Package = Package(name: string, version: string, baseURL: string, artifacts: seq<Artifact>)

  datatype Manifest = Manifest(packages: seq<Package>)

  // ---------------------------------------------------------------------------
  // Lock file (observed state)

  /**
   * A lock entry. `version` is the version actually obtained, `resolvedFrom`
   * the manifest version string in force when the entry was written, and
   * `installDate` a timestamp taken from the clock.
   */
  datatype InstalledPackage = InstalledPackage(
    name: string,
    version: string,
    resolvedFrom: string,
    installDate: int,
    os: string,
    arch: string,
    path: string)

  // ---------------------------------------------------------------------------
  // Outcomes

  /** The errors the operations return (Go wraps each in a formatted message). */
  datatype Failure =
    | NoMatchingArtifact
    | TransferFailed
    | PostInstallFailed
    | LockUnreadable
    | LockNotSaved
    | BinaryNotRemoved
    | NotInstalled
    | NotInManifestFailure

  /** The `Status` field of an update result ("success", "error", "skipped", "unknown"). */
  datatype Status = Succeeded | Errored | Skipped | UnknownStatus

  /** The `Message` field of an update result, one constructor per message the source builds. */
  datatype Message =
    | NotInManifest
    | LockLoadError
    | InstallError(cause: Failure)
    | OldBinaryError
    | UpdateError(cause: Failure)
    | InstalledOk
    | UpdatedOk
    | AlreadyUpToDate
    | UnknownState

  datatype UpdateResult = UpdateResult(
    name: string,
    previousVersion: string,
    newVersion: string,
    status: Status,
    message: Message)

  // ---------------------------------------------------------------------------
  // The outside world

  datatype Platform = Platform(os: string, arch: string)

  /** What the transfer of an artifact reports: its X-Version header ("" when absent) and the file name. */
  datatype Download = Fetched(header: string, filename: string) | TransferFailure

  /** Where the post-install step put the executable, or that it failed. */
  datatype Placement = Placed(path: string) | PlacementFailure

  /** How a whole-file rewrite of the lock file ends. */
  datatype WriteOutcome =
    | Written     // the new content is on disk
    | NotOpened   // the file could not be opened; the old content is intact
    | Truncated   // the write failed after the file was truncated

  /** The lock file on disk: absent (first run), a parsed list of entries, or unreadable. */
  datatype LockDisk = NoLockFile | Stored(entries: seq<InstalledPackage>) | Unreadable

  /** What the operations change on disk: the lock file and the set of paths that exist. */
  datatype Disk = Disk(lock: LockDisk, files: set<string>)

  /** What an operation returns (nil or an error) and the disk it leaves behind. */
  datatype Outcome = Outcome(err: Option<Failure>, disk: Disk)

  /** What UpdatePackage returns (its result record and its error) and the disk it leaves behind. */
  datatype Update = Update(result: UpdateResult, err: Option<Failure>, disk: Disk)

  /** What the batch drivers return (their result list and their error) and the disk they leave behind. */
  datatype Batch = Batch(results: seq<UpdateResult>, err: Option<Failure>, disk: Disk)

  /**
   * What one invocation reads from its surroundings and cannot change: the
   * platform (runtime.GOOS/GOARCH), the clock (time.Now), the transfer of a
   * URL, the placement of a downloaded package's binary, how lock writes end,
   * and the existing paths that cannot be deleted.
   */
  datatype Env = Env(
    platform: Platform,
    now: int,
    fetch: string -> Download,
    place: string -> Placement,
    write: WriteOutcome,
    undeletable: set<string>)

  // ---------------------------------------------------------------------------
  // The name matchers the lookups use

  /** Lock entry whose name equals `name` exactly (the upsert in InstallPackage). */
  function EntryNamed(name: string): InstalledPackage -> bool {
    (e: InstalledPackage) => e.name == name
  }

  /** Lock entry whose name equals `name` up to case (uninstall, update). */
  function EntryFolded(name: string): InstalledPackage -> bool {
    (e: InstalledPackage) => EqualFold(e.name, name)
  }

  /** Manifest package whose name equals `name` exactly (sync). */
  function PackageNamed(name: string): Package -> bool {
    (p: Package) => p.name == name
  }

  /** Manifest package whose name equals `name` up to case (install command, update). */
  function PackageFolded(name: string): Package -> bool {
    (p: Package) => EqualFold(p.name, name)
  }
}
