/**
 * The operations of backup/main.go that change the installation: install,
 * uninstall, update of one package, and the two batch drivers (update all,
 * sync). Each is a method that runs the source's steps in order, proved
 * equal to a function that states the outcome; installer_facts.dfy proves
 * what those functions promise.
 *
 * An operation takes the `Env` it runs in and the `Disk` it starts from and
 * returns its error (None for nil) together with the disk it leaves.
 */
module Installer {
  import opened Options
  import opened GoStrings
  import opened Search
  import opened Types
  import opened Versions
  import opened Selection
  import opened LockStore

  /** The manifest version that always triggers an update. */
  const Latest: string := "latest"

  // ---------------------------------------------------------------------------
  // Deleting a binary

  /**
   * os.Remove on an installed binary: a path that does not exist counts as
   * removed, an existing path that cannot be deleted is an error (None).
   */
  function RemoveBinary(path: string, env: Env, disk: Disk): (r: Option<Disk>)
    ensures r.None? <==> path in disk.files && path in env.undeletable
    ensures r.Some? ==> r.value == disk.(files := disk.files - {path})
  {
    if path in disk.files && path in env.undeletable then None
    else Some(disk.(files := disk.files - {path}))
  }

  // ---------------------------------------------------------------------------
  // InstallPackage

  /** The lock entry InstallPackage writes once the binary is in place. */
  function NewEntry(pkg: Package, header: string, filename: string, env: Env, path: string): InstalledPackage {
    InstalledPackage(
      pkg.name,
      GetActualVersion(header, filename, pkg.name, pkg.version),
      pkg.version,
      env.now,
      env.platform.os,
      env.platform.arch,
      path)
  }

  /**
   * The outcome of InstallPackage: select the artifact, transfer it, place
   * the binary, and only then load the lock, upsert the entry and save.
   */
  function InstallOutcome(pkg: Package, env: Env, disk: Disk): Outcome {
    match Chosen(pkg.artifacts, env.platform)
    case None => Outcome(Some(NoMatchingArtifact), disk)
    case Some(art) =>
      match env.fetch(DownloadURL(pkg, art))
      case TransferFailure => Outcome(Some(TransferFailed), disk)
      case Fetched(header, filename) =>
        match env.place(pkg.name)
        case PlacementFailure => Outcome(Some(PostInstallFailed), disk)
        case Placed(path) =>
          var placed := disk.(files := disk.files + {path});
          match Load(placed.lock)
          case None => Outcome(Some(LockUnreadable), placed)
          case Some(entries) => Save(Upserted(entries, NewEntry(pkg, header, filename, env, path)), env.write, placed)
  }

  method InstallPackage(pkg: Package, env: Env, disk: Disk) returns (err: Option<Failure>, disk': Disk)
    ensures Outcome(err, disk') == InstallOutcome(pkg, env, disk)
  {
    var selected := SelectArtifact(pkg.artifacts, env.platform);
    if selected.None? {
      return Some(NoMatchingArtifact), disk;
    }
    var fullURL := pkg.baseURL + selected.value.file;
    var download := env.fetch(fullURL);
    if download.TransferFailure? {
      return Some(TransferFailed), disk;
    }
    var actualVersion := GetActualVersion(download.header, download.filename, pkg.name, pkg.version);
    var placement := env.place(pkg.name);
    if placement.PlacementFailure? {
      return Some(PostInstallFailed), disk;
    }
    var binPath := placement.path;
    disk' := disk.(files := disk.files + {binPath});
    var lockFile := Load(disk'.lock);
    if lockFile.None? {
      return Some(LockUnreadable), disk';
    }
    var installedPkg := InstalledPackage(pkg.name, actualVersion, pkg.version, env.now, env.platform.os, env.platform.arch, binPath);
    var packages := Upsert(lockFile.value, installedPkg);
    var saved := Save(packages, env.write, disk');
    err, disk' := saved.err, saved.disk;
  }

  // ---------------------------------------------------------------------------
  // UninstallPackage

  /**
   * The outcome of UninstallPackage: the first entry whose name equals `name`
   * up to case has its binary deleted and is spliced out, then the lock is saved.
   */
  function UninstallOutcome(name: string, env: Env, disk: Disk): Outcome {
    match Load(disk.lock)
    case None => Outcome(Some(LockUnreadable), disk)
    case Some(entries) =>
      match FirstIndex(entries, EntryFolded(name))
      case None => Outcome(Some(NotInstalled), disk)
      case Some(k) =>
        match RemoveBinary(entries[k].path, env, disk)
        case None => Outcome(Some(BinaryNotRemoved), disk)
        case Some(removed) => Save(RemovedAt(entries, k), env.write, removed)
  }

  method UninstallPackage(name: string, env: Env, disk: Disk) returns (err: Option<Failure>, disk': Disk)
    ensures Outcome(err, disk') == UninstallOutcome(name, env, disk)
  {
    var lockFile := Load(disk.lock);
    if lockFile.None? {
      return Some(LockUnreadable), disk;
    }
    var packages := lockFile.value;
    disk' := disk;
    var found := false;
    var i := 0;
    while i < |packages|
      invariant 0 <= i <= |packages| && packages == lockFile.value && disk' == disk && !found
      invariant forall j :: 0 <= j < i ==> !EqualFold(packages[j].name, name)
    {
      if EqualFold(packages[i].name, name) {
        FirstIndexIs(packages, EntryFolded(name), i);
        var removal := RemoveBinary(packages[i].path, env, disk);
        if removal.None? {
          return Some(BinaryNotRemoved), disk;
        }
        disk' := removal.value;
        packages := RemovedAt(packages, i);
        found := true;
        break;
      }
      i := i + 1;
    }
    if !found {
      assert forall j :: 0 <= j < |packages| ==> !EntryFolded(name)(packages[j]);
      return Some(NotInstalled), disk;
    }
    var saved := Save(packages, env.write, disk');
    err, disk' := saved.err, saved.disk;
  }

  // ---------------------------------------------------------------------------
  // UpdatePackage

  /**
   * The update test: the manifest asks for "latest", the caller forces it,
   * or the manifest version changed since the entry was written and the
   * installed version compares below it.
   */
  predicate NeedsUpdate(manifestVersion: string, installed: InstalledPackage, force: bool) {
    || manifestVersion == Latest
    || force
    || (manifestVersion != installed.resolvedFrom && Comparison(installed.version, manifestVersion) < 0)
  }

  /** The lock re-read after an install: the first entry whose name equals `name` up to case. */
  function Reread(name: string, disk: Disk): Option<InstalledPackage> {
    match Load(disk.lock)
    case None => None
    case Some(entries) =>
      match FirstIndex(entries, EntryFolded(name))
      case None => None
      case Some(k) => Some(entries[k])
  }

  /**
   * The outcome of UpdatePackage. The manifest entry and the lock entry are
   * both looked up up to case; a package without a lock entry is installed,
   * one with an entry is skipped unless NeedsUpdate holds, and is otherwise
   * reinstalled after its old binary is deleted.
   */
  function UpdateOutcome(name: string, manifest: Manifest, force: bool, env: Env, disk: Disk): Update {
    match FirstIndex(manifest.packages, PackageFolded(name))
    case None => Update(UpdateResult(name, "", "", Errored, NotInManifest), Some(NotInManifestFailure), disk)
    case Some(m) =>
      var pkg := manifest.packages[m];
      match Load(disk.lock)
      case None => Update(UpdateResult(name, "", "", Errored, LockLoadError), Some(LockUnreadable), disk)
      case Some(entries) =>
        match FirstIndex(entries, EntryFolded(name))
        case None =>
          var o := InstallOutcome(pkg, env, disk);
          if o.err.Some? then Update(UpdateResult(name, "", "", Errored, InstallError(o.err.value)), o.err, o.disk)
          else
            var newVersion := match Reread(name, o.disk) case Some(e) => e.version case None => "";
            Update(UpdateResult(name, "", newVersion, Succeeded, InstalledOk), None, o.disk)
        case Some(k) =>
          var installed := entries[k];
          if !NeedsUpdate(pkg.version, installed, force) then
            Update(UpdateResult(name, installed.version, installed.version, Skipped, AlreadyUpToDate), None, disk)
          else
            match RemoveBinary(installed.path, env, disk)
            case None => Update(UpdateResult(name, installed.version, "", Errored, OldBinaryError), Some(BinaryNotRemoved), disk)
            case Some(removed) =>
              var o := InstallOutcome(pkg, env, removed);
              if o.err.Some? then
                Update(UpdateResult(name, installed.version, "", Errored, UpdateError(o.err.value)), o.err, o.disk)
              else
                match Reread(name, o.disk)
                case Some(e) => Update(UpdateResult(name, installed.version, e.version, Succeeded, UpdatedOk), None, o.disk)
                case None => Update(UpdateResult(name, "", "", UnknownStatus, UnknownState), None, o.disk)
  }

  method UpdatePackage(name: string, manifest: Manifest, force: bool, env: Env, disk: Disk)
    returns (result: UpdateResult, err: Option<Failure>, disk': Disk)
    ensures Update(result, err, disk') == UpdateOutcome(name, manifest, force, env, disk)
  {
    var m := Find(manifest.packages, PackageFolded(name));
    if m.None? {
      return UpdateResult(name, "", "", Errored, NotInManifest), Some(NotInManifestFailure), disk;
    }
    var manifestPkg := manifest.packages[m.value];
    var lockFile := Load(disk.lock);
    if lockFile.None? {
      return UpdateResult(name, "", "", Errored, LockLoadError), Some(LockUnreadable), disk;
    }
    var k := Find(lockFile.value, EntryFolded(name));
    if k.None? {
      err, disk' := InstallPackage(manifestPkg, env, disk);
      if err.Some? {
        return UpdateResult(name, "", "", Errored, InstallError(err.value)), err, disk';
      }
      var reread := Reread(name, disk');
      if reread.Some? {
        return UpdateResult(name, "", reread.value.version, Succeeded, InstalledOk), None, disk';
      }
      return UpdateResult(name, "", "", Succeeded, InstalledOk), None, disk';
    }
    var installedPkg := lockFile.value[k.value];
    if manifestPkg.version == Latest || force ||
      (manifestPkg.version != installedPkg.resolvedFrom && Comparison(installedPkg.version, manifestPkg.version) < 0)
    {
      var previousVersion := installedPkg.version;
      var removal := RemoveBinary(installedPkg.path, env, disk);
      if removal.None? {
        return UpdateResult(name, previousVersion, "", Errored, OldBinaryError), Some(BinaryNotRemoved), disk;
      }
      err, disk' := InstallPackage(manifestPkg, env, removal.value);
      if err.Some? {
        return UpdateResult(name, previousVersion, "", Errored, UpdateError(err.value)), err, disk';
      }
      var reread := Reread(name, disk');
      if reread.Some? {
        return UpdateResult(name, previousVersion, reread.value.version, Succeeded, UpdatedOk), None, disk';
      }
    } else {
      return UpdateResult(name, installedPkg.version, installedPkg.version, Skipped, AlreadyUpToDate), None, disk;
    }
    return UpdateResult(name, "", "", UnknownStatus, UnknownState), None, disk';
  }

  // ---------------------------------------------------------------------------
  // UpdateAllPackages

  /** One UpdatePackage call per entry, in order, each on the disk the previous one left. */
  function UpdateSweep(entries: seq<InstalledPackage>, manifest: Manifest, force: bool, env: Env, disk: Disk): (b: Batch)
    ensures b.err.None? && |b.results| == |entries|
    decreases |entries|
  {
    if entries == [] then Batch([], None, disk)
    else
      var u := UpdateOutcome(entries[0].name, manifest, force, env, disk);
      var rest := UpdateSweep(entries[1..], manifest, force, env, u.disk);
      Batch([u.result] + rest.results, None, rest.disk)
  }

  /** The body of the UpdateAllPackages loop for the first of `entries`. */
  method UpdateEntry(entries: seq<InstalledPackage>, manifest: Manifest, force: bool, env: Env, disk: Disk)
    returns (result: UpdateResult, disk': Disk)
    requires entries != []
    ensures var rest := UpdateSweep(entries[1..], manifest, force, env, disk');
      UpdateSweep(entries, manifest, force, env, disk) == Batch([result] + rest.results, None, rest.disk)
  {
    var status;
    result, status, disk' := UpdatePackage(entries[0].name, manifest, force, env, disk);
  }

  /** The outcome of UpdateAllPackages: the sweep over the lock's entries, or the load error. */
  function UpdateAllOutcome(manifest: Manifest, force: bool, env: Env, disk: Disk): Batch {
    match Load(disk.lock)
    case None => Batch([], Some(LockUnreadable), disk)
    case Some(entries) => UpdateSweep(entries, manifest, force, env, disk)
  }

  method UpdateAllPackages(manifest: Manifest, force: bool, env: Env, disk: Disk)
    returns (results: seq<UpdateResult>, err: Option<Failure>, disk': Disk)
    ensures Batch(results, err, disk') == UpdateAllOutcome(manifest, force, env, disk)
  {
    var lockFile := Load(disk.lock);
    if lockFile.None? {
      return [], Some(LockUnreadable), disk;
    }
    var packages := lockFile.value;
    if |packages| == 0 {
      return [], None, disk;
    }
    results, disk' := UpdateEach(packages, manifest, force, env, disk);
    err := None;
  }

  /** The loop of UpdateAllPackages: every lock entry is updated in order, each on the disk the previous one left. */
  method UpdateEach(packages: seq<InstalledPackage>, manifest: Manifest, force: bool, env: Env, disk: Disk)
    returns (results: seq<UpdateResult>, disk': Disk)
    ensures Batch(results, None, disk') == UpdateSweep(packages, manifest, force, env, disk)
  {
    results := [];
    disk' := disk;
    var i := 0;
    assert packages[i..] == packages && results + [] == results;
    while i < |packages|
      invariant 0 <= i <= |packages|
      invariant var rest := UpdateSweep(packages[i..], manifest, force, env, disk');
        UpdateSweep(packages, manifest, force, env, disk) == Batch(results + rest.results, None, rest.disk)
    {
      assert packages[i..][1..] == packages[i + 1..];
      var result, next := UpdateEntry(packages[i..], manifest, force, env, disk');
      ghost var rest := UpdateSweep(packages[i + 1..], manifest, force, env, next);
      assert results + [result] + rest.results == results + ([result] + rest.results);
      results := results + [result];
      disk' := next;
      i := i + 1;
    }
    assert packages[i..] == [];
  }

  // ---------------------------------------------------------------------------
  // SyncPackages

  /**
   * What SyncPackages does for one entry: an entry whose binary is missing
   * is looked up in the manifest by exact name and reinstalled with a forced
   * update; one that is not in the manifest gets an error result; one whose
   * binary exists gets no result.
   */
  function SyncStep(e: InstalledPackage, manifest: Manifest, env: Env, disk: Disk): (b: Batch)
    ensures b.err.None? && |b.results| <= 1
    ensures e.path in disk.files <==> b.results == []
    ensures e.path in disk.files ==> b.disk == disk
    ensures e.path !in disk.files && FirstIndex(manifest.packages, PackageNamed(e.name)).None? ==>
      b == Batch([UpdateResult(e.name, "", "", Errored, NotInManifest)], None, disk)
    ensures e.path !in disk.files && FirstIndex(manifest.packages, PackageNamed(e.name)).Some? ==>
      var u := UpdateOutcome(e.name, manifest, true, env, disk);
      b == Batch([u.result], None, u.disk)
  {
    if e.path in disk.files then Batch([], None, disk)
    else
      match FirstIndex(manifest.packages, PackageNamed(e.name))
      case None => Batch([UpdateResult(e.name, "", "", Errored, NotInManifest)], None, disk)
      case Some(m) =>
        var u := UpdateOutcome(manifest.packages[m].name, manifest, true, env, disk);
        Batch([u.result], None, u.disk)
  }

  /** The loop of SyncPackages: one SyncStep per entry, in order, each on the disk the previous one left. */
  function SyncSweep(entries: seq<InstalledPackage>, manifest: Manifest, env: Env, disk: Disk): (b: Batch)
    ensures b.err.None? && |b.results| <= |entries|
    decreases |entries|
  {
    if entries == [] then Batch([], None, disk)
    else
      var step := SyncStep(entries[0], manifest, env, disk);
      var rest := SyncSweep(entries[1..], manifest, env, step.disk);
      Batch(step.results + rest.results, None, rest.disk)
  }

  /** The body of the SyncPackages loop for one lock entry. */
  method SyncEntry(installedPkg: InstalledPackage, manifest: Manifest, env: Env, disk: Disk)
    returns (found: seq<UpdateResult>, disk': Disk)
    ensures Batch(found, None, disk') == SyncStep(installedPkg, manifest, env, disk)
  {
    found, disk' := [], disk;
    if installedPkg.path !in disk.files {
      var pkg := Find(manifest.packages, PackageNamed(installedPkg.name));
      if pkg.None? {
        found := [UpdateResult(installedPkg.name, "", "", Errored, NotInManifest)];
      } else {
        var result, _, next := UpdatePackage(manifest.packages[pkg.value].name, manifest, true, env, disk);
        found, disk' := [result], next;
      }
    }
  }

  /** The outcome of SyncPackages: the sweep over the lock's entries, or the load error. */
  function SyncOutcome(manifest: Manifest, env: Env, disk: Disk): Batch {
    match Load(disk.lock)
    case None => Batch([], Some(LockUnreadable), disk)
    case Some(entries) => SyncSweep(entries, manifest, env, disk)
  }

  method SyncPackages(manifest: Manifest, env: Env, disk: Disk)
    returns (results: seq<UpdateResult>, err: Option<Failure>, disk': Disk)
    ensures Batch(results, err, disk') == SyncOutcome(manifest, env, disk)
  {
    var lockFile := Load(disk.lock);
    if lockFile.None? {
      return [], Some(LockUnreadable), disk;
    }
    var packages := lockFile.value;
    results := [];
    disk' := disk;
    var i := 0;
    assert packages[i..] == packages && results + [] == results;
    while i < |packages|
      invariant 0 <= i <= |packages|
      invariant var rest := SyncSweep(packages[i..], manifest, env, disk');
        SyncSweep(packages, manifest, env, disk) == Batch(results + rest.results, None, rest.disk)
    {
      assert packages[i..][1..] == packages[i + 1..];
      var found, next := SyncEntry(packages[i], manifest, env, disk');
      assert results + found + SyncSweep(packages[i + 1..], manifest, env, next).results
        == results + (found + SyncSweep(packages[i + 1..], manifest, env, next).results);
      results := results + found;
      disk' := next;
      i := i + 1;
    }
    assert packages[i..] == [];
    err := None;
  }
}
