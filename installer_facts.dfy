/**
 * What the installer's operations promise, proved about the functions that
 * state their outcomes (see installer.dfy).
 */
module InstallerFacts {
  import opened Options
  import opened GoStrings
  import opened Search
  import opened Types
  import opened Versions
  import opened Selection
  import opened LockStore
  import opened Installer

  /** The lock lists every name at most once (or cannot be read at all). */
  predicate LockDistinct(disk: Disk) {
    match Load(disk.lock)
    case None => true
    case Some(entries) => DistinctNames(entries)
  }

  // ---------------------------------------------------------------------------
  // InstallPackage

  /**
   * Without an artifact for the platform the install fails before any
   * transfer and changes nothing; with one, only the chosen artifact's URL is
   * ever transferred.
   */
  lemma InstallTransfersOnlyChosenURL(pkg: Package, env: Env, disk: Disk, fetch: string -> Download)
    ensures Chosen(pkg.artifacts, env.platform).None? ==>
      && InstallOutcome(pkg, env, disk) == Outcome(Some(NoMatchingArtifact), disk)
      && InstallOutcome(pkg, env.(fetch := fetch), disk) == InstallOutcome(pkg, env, disk)
    ensures Chosen(pkg.artifacts, env.platform).Some? ==>
      var url := DownloadURL(pkg, Chosen(pkg.artifacts, env.platform).value);
      fetch(url) == env.fetch(url) ==> InstallOutcome(pkg, env.(fetch := fetch), disk) == InstallOutcome(pkg, env, disk)
  {
  }

  /**
   * The lock is loaded and written only after the transfer and the placement
   * succeeded: a failed transfer or placement leaves the disk as it was, and
   * a failed install changes the lock only when the save itself truncated it.
   */
  lemma InstallFailureKeepsLock(pkg: Package, env: Env, disk: Disk)
    ensures var o := InstallOutcome(pkg, env, disk);
      && (o.err == Some(NoMatchingArtifact) || o.err == Some(TransferFailed) || o.err == Some(PostInstallFailed) ==> o.disk == disk)
      && (o.err.Some? && env.write != Truncated ==> o.disk.lock == disk.lock)
      && (o.disk.lock != disk.lock ==> o.err.None? || o.disk.lock == Unreadable)
  {
  }

  /**
   * An install succeeds exactly when an artifact is chosen, the transfer and
   * the placement succeed, the lock can be read and the write goes through.
   * The placed binary then exists and the lock holds the lock it was read
   * with, upserted with the new entry: the package's name, the observed
   * version, the manifest version it was resolved from, the clock, the
   * platform and the binary's path.
   */
  lemma InstallSuccess(pkg: Package, env: Env, disk: Disk)
    ensures var o := InstallOutcome(pkg, env, disk);
      o.err.None? <==>
        && Chosen(pkg.artifacts, env.platform).Some?
        && env.fetch(DownloadURL(pkg, Chosen(pkg.artifacts, env.platform).value)).Fetched?
        && env.place(pkg.name).Placed?
        && Load(disk.lock).Some?
        && env.write == Written
    ensures var o := InstallOutcome(pkg, env, disk);
      o.err.None? ==>
        var d := env.fetch(DownloadURL(pkg, Chosen(pkg.artifacts, env.platform).value));
        var path := env.place(pkg.name).path;
        exists entry: InstalledPackage ::
          && entry.name == pkg.name
          && entry.version == GetActualVersion(d.header, d.filename, pkg.name, pkg.version)
          && entry.resolvedFrom == pkg.version
          && entry.installDate == env.now
          && entry.os == env.platform.os && entry.arch == env.platform.arch
          && entry.path == path
          && o.disk == Disk(Stored(Upserted(Load(disk.lock).value, entry)), disk.files + {path})
  {
    var o := InstallOutcome(pkg, env, disk);
    if o.err.None? {
      var d := env.fetch(DownloadURL(pkg, Chosen(pkg.artifacts, env.platform).value));
      var path := env.place(pkg.name).path;
      var entry := NewEntry(pkg, d.header, d.filename, env, path);
      assert o.disk == Disk(Stored(Upserted(Load(disk.lock).value, entry)), disk.files + {path});
    }
  }

  /** Installing keeps the lock's names distinct. */
  lemma InstallKeepsDistinct(pkg: Package, env: Env, disk: Disk)
    requires LockDistinct(disk)
    ensures LockDistinct(InstallOutcome(pkg, env, disk).disk)
  {
    var o := InstallOutcome(pkg, env, disk);
    if o.err.None? {
      var d := env.fetch(DownloadURL(pkg, Chosen(pkg.artifacts, env.platform).value));
      var path := env.place(pkg.name).path;
      UpsertKeepsDistinct(Load(disk.lock).value, NewEntry(pkg, d.header, d.filename, env, path));
    }
  }

  /**
   * After a successful install, a case-insensitive lookup of any name equal
   * to the package's name up to case finds an entry.
   */
  lemma InstallThenReread(pkg: Package, env: Env, disk: Disk, name: string)
    requires EqualFold(pkg.name, name)
    requires InstallOutcome(pkg, env, disk).err.None?
    ensures Reread(name, InstallOutcome(pkg, env, disk).disk).Some?
  {
    var d := env.fetch(DownloadURL(pkg, Chosen(pkg.artifacts, env.platform).value));
    var path := env.place(pkg.name).path;
    var entry := NewEntry(pkg, d.header, d.filename, env, path);
    var r := Upserted(Load(disk.lock).value, entry);
    UpsertReplacesOrAppends(Load(disk.lock).value, entry);
    var k :| 0 <= k < |r| && r[k] == entry;
    assert EntryFolded(name)(r[k]);
  }

  /**
   * The first install on a machine without a lock file starts from an empty
   * list and writes a lock holding the new entry alone.
   */
  lemma FirstInstallCreatesLock(pkg: Package, env: Env, disk: Disk)
    requires disk.lock == NoLockFile
    requires InstallOutcome(pkg, env, disk).err.None?
    ensures exists entry: InstalledPackage ::
      entry.name == pkg.name && InstallOutcome(pkg, env, disk).disk.lock == Stored([entry])
  {
    var d := env.fetch(DownloadURL(pkg, Chosen(pkg.artifacts, env.platform).value));
    var entry := NewEntry(pkg, d.header, d.filename, env, env.place(pkg.name).path);
    assert FirstIndex([], EntryNamed(entry.name)).None?;
    assert Upserted([], entry) == [entry];
  }

  // ---------------------------------------------------------------------------
  // UninstallPackage

  /**
   * Uninstall reports "not installed" exactly when the lock is readable and no
   * entry's name equals the given one up to case; every failure other than a
   * failed save leaves the disk untouched, so nothing is written.
   */
  lemma UninstallNotInstalledIff(name: string, env: Env, disk: Disk)
    ensures var o := UninstallOutcome(name, env, disk);
      o.err == Some(NotInstalled) <==>
        Load(disk.lock).Some? && forall j :: 0 <= j < |Load(disk.lock).value| ==> !EqualFold(Load(disk.lock).value[j].name, name)
    ensures var o := UninstallOutcome(name, env, disk);
      o.err.Some? && o.err != Some(LockNotSaved) ==> o.disk == disk
  {
    match Load(disk.lock)
    case None =>
    case Some(entries) =>
      var p := EntryFolded(name);
      match FirstIndex(entries, p)
      case None =>
      case Some(k) =>
        assert p(entries[k]);
  }

  /**
   * A successful uninstall deleted the binary of the first entry whose name
   * equals the given one up to case, and saved the lock without exactly that
   * entry, the others keeping their order.
   */
  lemma UninstallRemovesFirstMatch(name: string, env: Env, disk: Disk)
    requires UninstallOutcome(name, env, disk).err.None?
    ensures Load(disk.lock).Some?
    ensures var entries := Load(disk.lock).value;
      exists k :: 0 <= k < |entries|
        && EqualFold(entries[k].name, name)
        && (forall j :: 0 <= j < k ==> !EqualFold(entries[j].name, name))
        && UninstallOutcome(name, env, disk).disk == Disk(Stored(RemovedAt(entries, k)), disk.files - {entries[k].path})
  {
    var entries := Load(disk.lock).value;
    var p := EntryFolded(name);
    var k := FirstIndex(entries, p).value;
    assert p(entries[k]);
    assert forall j :: 0 <= j < k ==> !p(entries[j]);
  }

  /**
   * Uninstall fails to delete the binary exactly when the first matching
   * entry's binary exists and cannot be deleted; a binary that is already
   * gone never stops the entry from being removed.
   */
  lemma UninstallBinaryErrorIff(name: string, env: Env, disk: Disk)
    ensures UninstallOutcome(name, env, disk).err == Some(BinaryNotRemoved) <==>
      && Load(disk.lock).Some?
      && var k := FirstIndex(Load(disk.lock).value, EntryFolded(name));
      && k.Some?
      && Load(disk.lock).value[k.value].path in disk.files
      && Load(disk.lock).value[k.value].path in env.undeletable
    ensures Load(disk.lock).Some? ==>
      var entries := Load(disk.lock).value;
      var k := FirstIndex(entries, EntryFolded(name));
      k.Some? && entries[k.value].path !in disk.files && env.write == Written ==>
        UninstallOutcome(name, env, disk) == Outcome(None, Disk(Stored(RemovedAt(entries, k.value)), disk.files))
  {
  }

  /** Uninstalling keeps the lock's names distinct. */
  lemma UninstallKeepsDistinct(name: string, env: Env, disk: Disk)
    requires LockDistinct(disk)
    ensures LockDistinct(UninstallOutcome(name, env, disk).disk)
  {
    var o := UninstallOutcome(name, env, disk);
    if o.err.None? {
      var entries := Load(disk.lock).value;
      RemovedAtKeepsDistinct(entries, FirstIndex(entries, EntryFolded(name)).value);
    }
  }

  // ---------------------------------------------------------------------------
  // UpdatePackage

  /**
   * The result always names the package asked for, and its status is never
   * "unknown": after a successful install the re-read always finds an entry,
   * whose version is the one reported.
   */
  lemma UpdateNeverUnknown(name: string, manifest: Manifest, force: bool, env: Env, disk: Disk)
    ensures UpdateOutcome(name, manifest, force, env, disk).result.name == name
    ensures UpdateOutcome(name, manifest, force, env, disk).result.status != UnknownStatus
    ensures var u := UpdateOutcome(name, manifest, force, env, disk);
      u.result.status == Succeeded ==> Reread(name, u.disk).Some? && u.result.newVersion == Reread(name, u.disk).value.version
  {
    var mp := PackageFolded(name);
    match FirstIndex(manifest.packages, mp)
    case None =>
    case Some(m) =>
      var pkg := manifest.packages[m];
      assert mp(pkg);
      match Load(disk.lock)
      case None =>
      case Some(entries) =>
        match FirstIndex(entries, EntryFolded(name))
        case None =>
          if InstallOutcome(pkg, env, disk).err.None? {
            InstallThenReread(pkg, env, disk, name);
          }
        case Some(k) =>
          var installed := entries[k];
          if NeedsUpdate(pkg.version, installed, force) {
            match RemoveBinary(installed.path, env, disk)
            case None =>
            case Some(removed) =>
              if InstallOutcome(pkg, env, removed).err.None? {
                InstallThenReread(pkg, env, removed, name);
              }
          }
  }

  /**
   * An update is skipped exactly when the package is in the manifest, the lock
   * is readable, the package has a lock entry and NeedsUpdate is false; a
   * skip reports the installed version as both versions and changes nothing.
   */
  lemma UpdateSkipIff(name: string, manifest: Manifest, force: bool, env: Env, disk: Disk)
    ensures UpdateOutcome(name, manifest, force, env, disk).result.status == Skipped <==>
      var m := FirstIndex(manifest.packages, PackageFolded(name));
      && m.Some?
      && Load(disk.lock).Some?
      && var k := FirstIndex(Load(disk.lock).value, EntryFolded(name));
      && k.Some?
      && !NeedsUpdate(manifest.packages[m.value].version, Load(disk.lock).value[k.value], force)
    ensures var u := UpdateOutcome(name, manifest, force, env, disk);
      u.result.status == Skipped ==>
        && u.disk == disk && u.err.None?
        && var installed := Load(disk.lock).value[FirstIndex(Load(disk.lock).value, EntryFolded(name)).value];
        && u.result.previousVersion == installed.version == u.result.newVersion
  {
    UpdateNeverUnknown(name, manifest, force, env, disk);
  }

  /** A forced update, or a manifest asking for "latest", is never skipped. */
  lemma ForcedUpdateNeverSkips(name: string, manifest: Manifest, force: bool, env: Env, disk: Disk)
    requires force || (FirstIndex(manifest.packages, PackageFolded(name)).Some? &&
      manifest.packages[FirstIndex(manifest.packages, PackageFolded(name)).value].version == Latest)
    ensures UpdateOutcome(name, manifest, force, env, disk).result.status != Skipped
  {
    UpdateSkipIff(name, manifest, force, env, disk);
  }

  /** A failed update changes the lock only when a save truncated it; every error result carries an error. */
  lemma UpdateErrorKeepsLock(name: string, manifest: Manifest, force: bool, env: Env, disk: Disk)
    ensures var u := UpdateOutcome(name, manifest, force, env, disk);
      && (u.err.Some? <==> u.result.status == Errored)
      && (u.err.Some? && env.write != Truncated ==> u.disk.lock == disk.lock)
  {
    var mp := PackageFolded(name);
    match FirstIndex(manifest.packages, mp)
    case None =>
    case Some(m) =>
      var pkg := manifest.packages[m];
      match Load(disk.lock)
      case None =>
      case Some(entries) =>
        match FirstIndex(entries, EntryFolded(name))
        case None =>
          InstallFailureKeepsLock(pkg, env, disk);
        case Some(k) =>
          var installed := entries[k];
          if NeedsUpdate(pkg.version, installed, force) {
            match RemoveBinary(installed.path, env, disk)
            case None =>
            case Some(removed) =>
              InstallFailureKeepsLock(pkg, env, removed);
          }
  }

  /**
   * An update that deleted the old binary and then failed before saving
   * leaves an orphan: the lock still lists the old entry, whose binary is gone.
   */
  lemma FailedUpdateOrphansEntry(name: string, manifest: Manifest, force: bool, env: Env, disk: Disk, f: Failure)
    requires UpdateOutcome(name, manifest, force, env, disk).result.message == UpdateError(f)
    requires f != LockNotSaved
    ensures Load(disk.lock).Some?
    ensures var entries := Load(disk.lock).value;
      var k := FirstIndex(entries, EntryFolded(name));
      && k.Some?
      && UpdateOutcome(name, manifest, force, env, disk).disk.lock == disk.lock
      && entries[k.value].path !in UpdateOutcome(name, manifest, force, env, disk).disk.files
  {
    var pkg := manifest.packages[FirstIndex(manifest.packages, PackageFolded(name)).value];
    var entries := Load(disk.lock).value;
    var installed := entries[FirstIndex(entries, EntryFolded(name)).value];
    var removed := RemoveBinary(installed.path, env, disk).value;
    InstallFailureKeepsLock(pkg, env, removed);
  }

  /** Updating keeps the lock's names distinct. */
  lemma UpdateKeepsDistinct(name: string, manifest: Manifest, force: bool, env: Env, disk: Disk)
    requires LockDistinct(disk)
    ensures LockDistinct(UpdateOutcome(name, manifest, force, env, disk).disk)
  {
    match FirstIndex(manifest.packages, PackageFolded(name))
    case None =>
    case Some(m) =>
      var pkg := manifest.packages[m];
      match Load(disk.lock)
      case None =>
      case Some(entries) =>
        match FirstIndex(entries, EntryFolded(name))
        case None =>
          InstallKeepsDistinct(pkg, env, disk);
        case Some(k) =>
          match RemoveBinary(entries[k].path, env, disk)
          case None =>
          case Some(removed) =>
            InstallKeepsDistinct(pkg, env, removed);
  }

  /**
   * A successful update or install ran InstallPackage to success on a disk
   * whose lock is the one the update started from, and reports the version
   * the re-read finds.
   */
  lemma SucceededByInstall(name: string, manifest: Manifest, force: bool, env: Env, disk: Disk) returns (start: Disk)
    requires UpdateOutcome(name, manifest, force, env, disk).result.status == Succeeded
    ensures FirstIndex(manifest.packages, PackageFolded(name)).Some?
    ensures Load(disk.lock).Some? && start.lock == disk.lock
    ensures var pkg := manifest.packages[FirstIndex(manifest.packages, PackageFolded(name)).value];
      var u := UpdateOutcome(name, manifest, force, env, disk);
      && EqualFold(pkg.name, name)
      && InstallOutcome(pkg, env, start) == Outcome(None, u.disk)
      && (Reread(name, u.disk).Some? ==> u.result.newVersion == Reread(name, u.disk).value.version)
  {
    var pkg := manifest.packages[FirstIndex(manifest.packages, PackageFolded(name)).value];
    assert PackageFolded(name)(pkg);
    var entries := Load(disk.lock).value;
    start := if FirstIndex(entries, EntryFolded(name)).None? then disk
      else RemoveBinary(entries[FirstIndex(entries, EntryFolded(name)).value].path, env, disk).value;
  }

  /**
   * Running an update twice: once an update or install succeeded for a
   * package whose manifest version is not "latest", a second unforced run is
   * skipped and changes nothing — provided every lock entry that matches the
   * name up to case carries the manifest's spelling of it exactly.
   */
  lemma UpdateThenSkip(name: string, manifest: Manifest, force: bool, env: Env, disk: Disk)
    requires UpdateOutcome(name, manifest, force, env, disk).result.status == Succeeded
    requires var m := FirstIndex(manifest.packages, PackageFolded(name));
      m.Some? && manifest.packages[m.value].version != Latest
    requires Load(disk.lock).Some?
    requires forall j :: 0 <= j < |Load(disk.lock).value| && EqualFold(Load(disk.lock).value[j].name, name) ==>
      Load(disk.lock).value[j].name == manifest.packages[FirstIndex(manifest.packages, PackageFolded(name)).value].name
    ensures var u := UpdateOutcome(name, manifest, force, env, disk);
      var u2 := UpdateOutcome(name, manifest, false, env, u.disk);
      u2.result.status == Skipped && u2.disk == u.disk && u2.result.newVersion == u.result.newVersion
  {
    var u := UpdateOutcome(name, manifest, force, env, disk);
    var pkg := manifest.packages[FirstIndex(manifest.packages, PackageFolded(name)).value];
    var entries := Load(disk.lock).value;
    var start := SucceededByInstall(name, manifest, force, env, disk);
    var d := env.fetch(DownloadURL(pkg, Chosen(pkg.artifacts, env.platform).value));
    var entry := NewEntry(pkg, d.header, d.filename, env, env.place(pkg.name).path);
    assert u.disk.lock == Stored(Upserted(entries, entry));
    FoldLookupAfterUpsert(entries, entry, name);
    assert Reread(name, u.disk) == Some(entry);
  }

  /**
   * When every entry matching `name` up to case is spelled exactly as the new
   * entry, and the new entry matches `name` up to case, the first match after
   * the upsert is the new entry.
   */
  lemma FoldLookupAfterUpsert(entries: seq<InstalledPackage>, entry: InstalledPackage, name: string)
    requires EqualFold(entry.name, name)
    requires forall j :: 0 <= j < |entries| && EqualFold(entries[j].name, name) ==> entries[j].name == entry.name
    ensures var r := Upserted(entries, entry);
      exists k :: FirstIndex(r, EntryFolded(name)) == Some(k) && r[k] == entry
  {
    var exact := EntryNamed(entry.name);
    var folded := EntryFolded(name);
    var r := Upserted(entries, entry);
    match FirstIndex(entries, exact)
    case Some(k) =>
      assert exact(entries[k]);
      forall j | 0 <= j < k ensures !folded(r[j]) {
        assert !exact(entries[j]);
      }
      assert r[k] == entry && folded(r[k]);
      FirstIndexIs(r, folded, k);
    case None =>
      var k := |entries|;
      forall j | 0 <= j < k ensures !folded(r[j]) {
        assert !exact(entries[j]);
      }
      assert r[k] == entry && folded(r[k]);
      FirstIndexIs(r, folded, k);
  }

  /**
   * The case-variant quirk: a lock entry whose name matches the package only
   * up to case is found by the update but never replaced, because the upsert
   * matches names exactly. A successful update leaves that entry in place,
   * reports its stale version as the new one, and the next lookup finds it again.
   */
  lemma CaseVariantNeverRefreshed(name: string, manifest: Manifest, force: bool, env: Env, disk: Disk)
    requires UpdateOutcome(name, manifest, force, env, disk).result.status == Succeeded
    requires Load(disk.lock).Some?
    requires var entries := Load(disk.lock).value;
      var k := FirstIndex(entries, EntryFolded(name));
      var m := FirstIndex(manifest.packages, PackageFolded(name));
      k.Some? && m.Some? && entries[k.value].name != manifest.packages[m.value].name
    ensures var entries := Load(disk.lock).value;
      var stale := entries[FirstIndex(entries, EntryFolded(name)).value];
      var u := UpdateOutcome(name, manifest, force, env, disk);
      && Reread(name, u.disk) == Some(stale)
      && u.result.newVersion == stale.version
  {
    var entries := Load(disk.lock).value;
    var k := FirstIndex(entries, EntryFolded(name)).value;
    var stale := entries[k];
    var pkg := manifest.packages[FirstIndex(manifest.packages, PackageFolded(name)).value];
    var u := UpdateOutcome(name, manifest, force, env, disk);
    var start := SucceededByInstall(name, manifest, force, env, disk);
    var d := env.fetch(DownloadURL(pkg, Chosen(pkg.artifacts, env.platform).value));
    var entry := NewEntry(pkg, d.header, d.filename, env, env.place(pkg.name).path);
    var r := Upserted(entries, entry);
    assert u.disk.lock == Stored(r);
    var folded := EntryFolded(name);
    assert folded(stale);
    assert forall j :: 0 <= j < k ==> !folded(entries[j]);
    forall j | 0 <= j <= k ensures r[j] == entries[j] {
      assert entries[j].name != entry.name by {
        if j < k {
          assert !folded(entries[j]);
        }
      }
      UpsertKeepsOtherNames(entries, entry, j);
    }
    FirstIndexIs(r, folded, k);
  }

  // ---------------------------------------------------------------------------
  // UpdateAllPackages and SyncPackages

  /** The update sweep yields exactly one result per entry, named after it, in lock order. */
  lemma {:induction false} UpdateSweepOnePerEntry(entries: seq<InstalledPackage>, manifest: Manifest, force: bool, env: Env, disk: Disk)
    ensures var b := UpdateSweep(entries, manifest, force, env, disk);
      |b.results| == |entries| && forall i :: 0 <= i < |entries| ==> b.results[i].name == entries[i].name
    decreases |entries|
  {
    if entries != [] {
      var u := UpdateOutcome(entries[0].name, manifest, force, env, disk);
      UpdateNeverUnknown(entries[0].name, manifest, force, env, disk);
      UpdateSweepOnePerEntry(entries[1..], manifest, force, env, u.disk);
    }
  }

  /**
   * UpdateAllPackages fails only when the lock cannot be read; otherwise it
   * yields one result per lock entry, in order, an empty list for an empty lock.
   */
  lemma UpdateAllOnePerEntry(manifest: Manifest, force: bool, env: Env, disk: Disk)
    ensures var b := UpdateAllOutcome(manifest, force, env, disk);
      && (b.err.Some? <==> Load(disk.lock).None?)
      && (b.err.Some? ==> b.results == [] && b.disk == disk)
      && (Load(disk.lock).Some? ==>
          var entries := Load(disk.lock).value;
          && |b.results| == |entries|
          && (forall i :: 0 <= i < |entries| ==> b.results[i].name == entries[i].name)
          && (entries == [] ==> b.disk == disk))
  {
    if Load(disk.lock).Some? {
      UpdateSweepOnePerEntry(Load(disk.lock).value, manifest, force, env, disk);
    }
  }

  /** Sweeping updates keeps the lock's names distinct. */
  lemma {:induction false} UpdateSweepKeepsDistinct(entries: seq<InstalledPackage>, manifest: Manifest, force: bool, env: Env, disk: Disk)
    requires LockDistinct(disk)
    ensures LockDistinct(UpdateSweep(entries, manifest, force, env, disk).disk)
    decreases |entries|
  {
    if entries != [] {
      var u := UpdateOutcome(entries[0].name, manifest, force, env, disk);
      UpdateKeepsDistinct(entries[0].name, manifest, force, env, disk);
      UpdateSweepKeepsDistinct(entries[1..], manifest, force, env, u.disk);
    }
  }

  /**
   * Sync acts only on entries whose binary is missing: when every binary
   * exists it yields no result and changes nothing.
   */
  lemma {:induction false} SyncOnlyMissing(entries: seq<InstalledPackage>, manifest: Manifest, env: Env, disk: Disk)
    requires forall i :: 0 <= i < |entries| ==> entries[i].path in disk.files
    ensures SyncSweep(entries, manifest, env, disk) == Batch([], None, disk)
    decreases |entries|
  {
    if entries != [] {
      SyncOnlyMissing(entries[1..], manifest, env, disk);
    }
  }

  /**
   * Every sync result belongs to a lock entry, by exact name, and none is
   * "skipped": each missing binary is either reinstalled by a forced update
   * or reported as absent from the manifest.
   */
  lemma {:induction false} SyncResultsNamedNeverSkipped(entries: seq<InstalledPackage>, manifest: Manifest, env: Env, disk: Disk)
    ensures forall r :: r in SyncSweep(entries, manifest, env, disk).results ==>
      r.status != Skipped && exists e :: e in entries && e.name == r.name
    decreases |entries|
  {
    if entries != [] {
      var e := entries[0];
      var step := SyncStep(e, manifest, env, disk);
      var rest := SyncSweep(entries[1..], manifest, env, step.disk);
      SyncResultsNamedNeverSkipped(entries[1..], manifest, env, step.disk);
      assert forall r :: r in step.results ==> r.status != Skipped && r.name == e.name by {
        if e.path !in disk.files {
          match FirstIndex(manifest.packages, PackageNamed(e.name))
          case None =>
          case Some(m) =>
            var pkgName := manifest.packages[m].name;
            assert PackageNamed(e.name)(manifest.packages[m]);
            UpdateNeverUnknown(pkgName, manifest, true, env, disk);
            ForcedUpdateNeverSkips(pkgName, manifest, true, env, disk);
        }
      }
      assert SyncSweep(entries, manifest, env, disk).results == step.results + rest.results;
      forall r | r in step.results + rest.results
        ensures r.status != Skipped && exists e' :: e' in entries && e'.name == r.name
      {
        if r in step.results {
          assert e in entries;
        } else {
          var e' :| e' in entries[1..] && e'.name == r.name;
          assert e' in entries;
        }
      }
    }
  }

  /** Sweeping two lists in a row is sweeping their concatenation. */
  lemma {:induction false} SyncSweepSplit(a: seq<InstalledPackage>, b: seq<InstalledPackage>, manifest: Manifest, env: Env, disk: Disk)
    ensures var x := SyncSweep(a, manifest, env, disk);
      var y := SyncSweep(b, manifest, env, x.disk);
      SyncSweep(a + b, manifest, env, disk) == Batch(x.results + y.results, None, y.disk)
    decreases |a|
  {
    if a == [] {
      assert a + b == b;
    } else {
      assert (a + b)[0] == a[0] && (a + b)[1..] == a[1..] + b;
      var step := SyncStep(a[0], manifest, env, disk);
      SyncSweepSplit(a[1..], b, manifest, env, step.disk);
      var x := SyncSweep(a[1..], manifest, env, step.disk);
      var y := SyncSweep(b, manifest, env, x.disk);
      assert step.results + (x.results + y.results) == (step.results + x.results) + y.results;
    }
  }

  /**
   * Each lock entry is handled in its turn: entry i gets SyncStep on the disk
   * the entries before it left, and its results (none when its binary exists
   * then, one otherwise: a forced update of the package, or a "not in the
   * manifest" error) sit between theirs and those of the entries after it.
   */
  lemma SyncSweepAt(entries: seq<InstalledPackage>, i: nat, manifest: Manifest, env: Env, disk: Disk)
    requires i < |entries|
    ensures var before := SyncSweep(entries[..i], manifest, env, disk);
      var step := SyncStep(entries[i], manifest, env, before.disk);
      var after := SyncSweep(entries[i + 1..], manifest, env, step.disk);
      SyncSweep(entries, manifest, env, disk) == Batch(before.results + step.results + after.results, None, after.disk)
  {
    assert entries == entries[..i] + entries[i..];
    SyncSweepSplit(entries[..i], entries[i..], manifest, env, disk);
    assert entries[i..][0] == entries[i] && entries[i..][1..] == entries[i + 1..];
  }

  /** One "not in the manifest" error for each entry whose binary is missing, in lock order. */
  function UnlistedReports(entries: seq<InstalledPackage>, files: set<string>): seq<UpdateResult>
    decreases |entries|
  {
    if entries == [] then []
    else
      var head := if entries[0].path in files then [] else [UpdateResult(entries[0].name, "", "", Errored, NotInManifest)];
      head + UnlistedReports(entries[1..], files)
  }

  /**
   * When no lock entry appears in the manifest under its exact name, sync
   * reinstalls nothing, changes nothing, and reports each missing binary as
   * an error named after its entry.
   */
  lemma {:induction false} SyncReportsUnlisted(entries: seq<InstalledPackage>, manifest: Manifest, env: Env, disk: Disk)
    requires forall i :: 0 <= i < |entries| ==> FirstIndex(manifest.packages, PackageNamed(entries[i].name)).None?
    ensures SyncSweep(entries, manifest, env, disk) == Batch(UnlistedReports(entries, disk.files), None, disk)
    decreases |entries|
  {
    if entries != [] {
      assert FirstIndex(manifest.packages, PackageNamed(entries[0].name)).None?;
      assert forall i :: 0 <= i < |entries[1..]| ==> entries[1..][i] == entries[i + 1];
      SyncReportsUnlisted(entries[1..], manifest, env, disk);
    }
  }

  /** SyncPackages fails only when the lock cannot be read, and then changes nothing. */
  lemma SyncFailsOnlyOnUnreadableLock(manifest: Manifest, env: Env, disk: Disk)
    ensures var b := SyncOutcome(manifest, env, disk);
      (b.err.Some? <==> Load(disk.lock).None?) && (b.err.Some? ==> b.results == [] && b.disk == disk)
  {
  }
}
