/**
 * Artifact selection, shared by both InstallPackage functions: the first
 * artifact whose OS and architecture equal the running platform's up to
 * case, and the download URL built from it.
 */
module Selection {
  import opened Options
  import opened GoStrings
  import opened Search
  import opened Types

  /** An artifact built for `platform`, comparing OS and architecture case-insensitively. */
  predicate BuiltFor(art: Artifact, platform: Platform) {
    EqualFold(art.os, platform.os) && EqualFold(art.arch, platform.arch)
  }

  function ArtifactFor(platform: Platform): Artifact -> bool {
    (art: Artifact) => BuiltFor(art, platform)
  }

  /** The artifact the installer picks: the first one built for the platform, in list order. */
  function Chosen(artifacts: seq<Artifact>, platform: Platform): Option<Artifact> {
    match FirstIndex(artifacts, ArtifactFor(platform))
    case None => None
    case Some(k) => Some(artifacts[k])
  }

  /** Chosen finds an artifact exactly when one is built for the platform, and then the first such one. */
  lemma ChosenIsFirstMatch(artifacts: seq<Artifact>, platform: Platform)
    ensures Chosen(artifacts, platform).None? <==>
      forall i :: 0 <= i < |artifacts| ==> !BuiltFor(artifacts[i], platform)
    ensures Chosen(artifacts, platform).Some? ==>
      exists k :: 0 <= k < |artifacts| && Chosen(artifacts, platform).value == artifacts[k] &&
        BuiltFor(artifacts[k], platform) &&
        forall j :: 0 <= j < k ==> !BuiltFor(artifacts[j], platform)
  {
    var p := ArtifactFor(platform);
    match FirstIndex(artifacts, p)
    case None =>
    case Some(k) =>
      assert p(artifacts[k]);
      assert forall j :: 0 <= j < k ==> !p(artifacts[j]);
  }

  /** Artifacts that are not built for the platform never influence the choice. */
  lemma ChosenSkipsForeign(foreign: seq<Artifact>, artifacts: seq<Artifact>, platform: Platform)
    requires forall i :: 0 <= i < |foreign| ==> !BuiltFor(foreign[i], platform)
    ensures Chosen(foreign + artifacts, platform) == Chosen(artifacts, platform)
  {
    var p := ArtifactFor(platform);
    var s := foreign + artifacts;
    match FirstIndex(artifacts, p)
    case None =>
      assert forall i :: 0 <= i < |s| ==> !p(s[i]) by {
        forall i | 0 <= i < |s| ensures !p(s[i]) {
          if i >= |foreign| {
            assert s[i] == artifacts[i - |foreign|];
          }
        }
      }
    case Some(k) =>
      var k' := |foreign| + k;
      assert s[k'] == artifacts[k];
      assert forall j :: 0 <= j < k' ==> !p(s[j]) by {
        forall j | 0 <= j < k' ensures !p(s[j]) {
          if j >= |foreign| {
            assert s[j] == artifacts[j - |foreign|];
          }
        }
      }
      FirstIndexIs(s, p, k');
  }

  /** The selection loop of InstallPackage: scan the artifacts and stop at the first match. */
  method SelectArtifact(artifacts: seq<Artifact>, platform: Platform) returns (selected: Option<Artifact>)
    ensures selected == Chosen(artifacts, platform)
  {
    selected := None;
    var i := 0;
    while i < |artifacts|
      invariant 0 <= i <= |artifacts|
      invariant forall j :: 0 <= j < i ==> !BuiltFor(artifacts[j], platform)
    {
      if EqualFold(artifacts[i].os, platform.os) && EqualFold(artifacts[i].arch, platform.arch) {
        selected := Some(artifacts[i]);
        FirstIndexIs(artifacts, ArtifactFor(platform), i);
        return;
      }
      i := i + 1;
    }
    assert forall j :: 0 <= j < |artifacts| ==> !ArtifactFor(platform)(artifacts[j]);
  }

  /** The download URL: the base URL and the file name, concatenated with no separator. */
  function DownloadURL(pkg: Package, art: Artifact): (url: string)
    ensures |url| == |pkg.baseURL| + |art.file|
    ensures url[..|pkg.baseURL|] == pkg.baseURL && url[|pkg.baseURL|..] == art.file
  {
    pkg.baseURL + art.file
  }
}
