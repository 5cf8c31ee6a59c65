/**
 * The older installer at the root of the repository (main.go): its
 * InstallPackage only selects an artifact and starts a download whose
 * result it ignores, and its `install` command installs the first manifest
 * package whose name matches up to case.
 */
module RootInstaller {
  import opened Options
  import opened GoStrings
  import opened Search
  import opened Types
  import opened Selection
  import opened Installer

  /** A DownloadFile call: the URL and the destination file (named after the package). */
  datatype Request = Request(url: string, dest: string)

  /** What the root InstallPackage returns, and the download it started, if any. */
  datatype RootInstall = RootInstall(err: Option<Failure>, request: Option<Request>)

  /**
   * The outcome of the root InstallPackage. It depends on the package and the
   * platform only: the build flag is ignored and so is the download's result.
   */
  function RootInstallOutcome(pkg: Package, platform: Platform): RootInstall {
    match Chosen(pkg.artifacts, platform)
    case None => RootInstall(Some(NoMatchingArtifact), None)
    case Some(art) => RootInstall(None, Some(Request(DownloadURL(pkg, art), pkg.name)))
  }

  /**
   * InstallPackage of main.go. `transfer` stands for DownloadFile: it is
   * called, and what it reports is dropped.
   */
  method InstallPackage(pkg: Package, forceBuild: bool, platform: Platform, transfer: Request -> bool)
    returns (err: Option<Failure>, request: Option<Request>)
    ensures RootInstall(err, request) == RootInstallOutcome(pkg, platform)
  {
    var selected := SelectArtifact(pkg.artifacts, platform);
    if selected.None? {
      return Some(NoMatchingArtifact), None;
    }
    var fullURL := pkg.baseURL + selected.value.file;
    request := Some(Request(fullURL, pkg.name));
    var _ := transfer(request.value);
    err := None;
  }

  /**
   * The root InstallPackage fails exactly when no artifact is built for the
   * platform, and then starts no download; otherwise it reports success and
   * requests the first matching artifact's URL into a file named after the
   * package, whatever the transfer then does.
   */
  lemma RootInstallSucceedsIff(pkg: Package, platform: Platform)
    ensures var o := RootInstallOutcome(pkg, platform);
      && (o.err.Some? <==> forall i :: 0 <= i < |pkg.artifacts| ==> !BuiltFor(pkg.artifacts[i], platform))
      && (o.err.Some? <==> o.request.None?)
      && (o.err.Some? ==> o.err == Some(NoMatchingArtifact))
    ensures var o := RootInstallOutcome(pkg, platform);
      o.request.Some? ==>
        exists k :: 0 <= k < |pkg.artifacts|
          && BuiltFor(pkg.artifacts[k], platform)
          && (forall j :: 0 <= j < k ==> !BuiltFor(pkg.artifacts[j], platform))
          && o.request.value == Request(pkg.baseURL + pkg.artifacts[k].file, pkg.name)
  {
    ChosenIsFirstMatch(pkg.artifacts, platform);
  }

  /**
   * Both installers select the same artifact and URL: the root one fails
   * exactly where the other fails for want of an artifact, and whenever the
   * other one reaches the transfer the root one requests the same URL.
   */
  lemma RootAgreesWithInstaller(pkg: Package, env: Env, disk: Disk)
    ensures RootInstallOutcome(pkg, env.platform).err.Some? <==>
      InstallOutcome(pkg, env, disk).err == Some(NoMatchingArtifact)
    ensures InstallOutcome(pkg, env, disk).err.None? ==>
      RootInstallOutcome(pkg, env.platform).request.Some? &&
      env.fetch(RootInstallOutcome(pkg, env.platform).request.value.url).Fetched?
  {
  }

  // ---------------------------------------------------------------------------
  // The `install` command

  /** What `goblin install <name>` does: the install it attempted, if any, and its exit status. */
  datatype Command = Command(exitCode: int, attempt: Option<RootInstall>)

  /**
   * The first manifest package whose name equals `name` up to case is
   * installed; an install error is only logged. The exit status is 1 when no
   * package matches and 0 otherwise.
   */
  function CommandOutcome(manifest: Manifest, name: string, platform: Platform): Command {
    match FirstIndex(manifest.packages, PackageFolded(name))
    case None => Command(1, None)
    case Some(m) => Command(0, Some(RootInstallOutcome(manifest.packages[m], platform)))
  }

  /** The `install` branch of main: the found-flag loop over the manifest. */
  method InstallCommand(manifest: Manifest, name: string, forceBuild: bool, platform: Platform, transfer: Request -> bool)
    returns (exitCode: int, attempt: Option<RootInstall>)
    ensures Command(exitCode, attempt) == CommandOutcome(manifest, name, platform)
  {
    attempt := None;
    var found := false;
    var i := 0;
    while i < |manifest.packages|
      invariant 0 <= i <= |manifest.packages| && !found && attempt.None?
      invariant forall j :: 0 <= j < i ==> !EqualFold(manifest.packages[j].name, name)
    {
      var pkg := manifest.packages[i];
      if EqualFold(pkg.name, name) {
        found := true;
        FirstIndexIs(manifest.packages, PackageFolded(name), i);
        var err, request := InstallPackage(pkg, forceBuild, platform, transfer);
        attempt := Some(RootInstall(err, request));
        break;
      }
      i := i + 1;
    }
    if !found {
      assert forall j :: 0 <= j < |manifest.packages| ==> !PackageFolded(name)(manifest.packages[j]);
      return 1, None;
    }
    exitCode := 0;
  }

  /**
   * The command exits with 1 exactly when no manifest package matches the
   * name up to case; otherwise it exits with 0 and attempted the first
   * matching package, even when that install failed.
   */
  lemma CommandExitStatus(manifest: Manifest, name: string, platform: Platform)
    ensures var c := CommandOutcome(manifest, name, platform);
      && (c.exitCode == 1 <==> forall j :: 0 <= j < |manifest.packages| ==> !EqualFold(manifest.packages[j].name, name))
      && (c.exitCode == 0 <==> c.attempt.Some?)
      && (c.exitCode == 0 || c.exitCode == 1)
    ensures var c := CommandOutcome(manifest, name, platform);
      c.attempt.Some? ==>
        exists m :: 0 <= m < |manifest.packages|
          && EqualFold(manifest.packages[m].name, name)
          && (forall j :: 0 <= j < m ==> !EqualFold(manifest.packages[j].name, name))
          && c.attempt.value == RootInstallOutcome(manifest.packages[m], platform)
  {
    var p := PackageFolded(name);
    match FirstIndex(manifest.packages, p)
    case None =>
    case Some(m) =>
      assert p(manifest.packages[m]);
      assert forall j :: 0 <= j < m ==> !p(manifest.packages[j]);
  }
}
