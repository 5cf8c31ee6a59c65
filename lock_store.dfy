/**
 * The lock file as the operations see it: a list of entries, read whole and
 * rewritten whole. Entries are upserted by exact name (InstallPackage) and
 * spliced out by position (UninstallPackage).
 */
module LockStore {
  import opened Options
  import opened Search
  import opened Types

  /** No two entries share a name. */
  predicate DistinctNames(entries: seq<InstalledPackage>) {
    forall i, j :: 0 <= i < j < |entries| ==> entries[i].name != entries[j].name
  }

  // ---------------------------------------------------------------------------
  // Reading and writing the file

  /**
   * LoadLockFile: a missing file reads as an empty list, a file that cannot be
   * read or parsed is an error.
   */
  function Load(lock: LockDisk): (r: Option<seq<InstalledPackage>>)
    ensures r.None? <==> lock.Unreadable?
    ensures lock.Stored? ==> r == Some(lock.entries)
    ensures lock.NoLockFile? ==> r == Some([])
  {
    match lock
    case NoLockFile => Some([])
    case Stored(entries) => Some(entries)
    case Unreadable => None
  }

  /**
   * SaveLockFile, a plain whole-file write: it either succeeds, fails before
   * the old content is touched, or fails after truncating it.
   */
  function Save(entries: seq<InstalledPackage>, write: WriteOutcome, disk: Disk): Outcome {
    match write
    case Written => Outcome(None, disk.(lock := Stored(entries)))
    case NotOpened => Outcome(Some(LockNotSaved), disk)
    case Truncated => Outcome(Some(LockNotSaved), disk.(lock := Unreadable))
  }

  /** A save reports success exactly when the write went through, and a later load then returns what was saved; it never touches the binaries. */
  lemma SaveThenLoad(entries: seq<InstalledPackage>, write: WriteOutcome, disk: Disk)
    ensures var o := Save(entries, write, disk);
      && o.disk.files == disk.files
      && (o.err.None? <==> write == Written)
      && (o.err.None? ==> Load(o.disk.lock) == Some(entries))
      && (write == NotOpened ==> o.disk == disk)
  {
  }

  // ---------------------------------------------------------------------------
  // Upsert by exact name

  /** The entry list after recording `entry`: replaces the first entry with the same name, or appends. */
  function Upserted(entries: seq<InstalledPackage>, entry: InstalledPackage): seq<InstalledPackage> {
    match FirstIndex(entries, EntryNamed(entry.name))
    case Some(i) => entries[i := entry]
    case None => entries + [entry]
  }

  /** The loop of InstallPackage that overwrites the first entry with the same name, or appends when there is none. */
  method Upsert(entries: seq<InstalledPackage>, entry: InstalledPackage) returns (r: seq<InstalledPackage>)
    ensures r == Upserted(entries, entry)
  {
    r := entries;
    var found := false;
    var i := 0;
    while i < |r|
      invariant 0 <= i <= |r| && r == entries && !found
      invariant forall j :: 0 <= j < i ==> r[j].name != entry.name
    {
      if r[i].name == entry.name {
        r := r[i := entry];
        found := true;
        FirstIndexIs(entries, EntryNamed(entry.name), i);
        break;
      }
      i := i + 1;
    }
    if !found {
      assert forall j :: 0 <= j < |entries| ==> !EntryNamed(entry.name)(entries[j]);
      r := r + [entry];
    }
  }

  /**
   * Upsert touches one position: the first entry whose name equals the new
   * entry's exactly is replaced in place, or the entry is appended when no
   * entry has that name; every other entry keeps its position.
   */
  lemma UpsertReplacesOrAppends(entries: seq<InstalledPackage>, entry: InstalledPackage)
    ensures var r := Upserted(entries, entry);
      exists k :: 0 <= k <= |entries| && k < |r| && r[k] == entry
        && (forall j :: 0 <= j < k ==> entries[j].name != entry.name)
        && (k < |entries| ==> |r| == |entries| && entries[k].name == entry.name)
        && (k == |entries| ==> |r| == |entries| + 1)
        && (forall j :: 0 <= j < |entries| && j != k ==> r[j] == entries[j])
  {
    var p := EntryNamed(entry.name);
    var r := Upserted(entries, entry);
    match FirstIndex(entries, p)
    case Some(k) =>
      assert p(entries[k]);
      assert forall j :: 0 <= j < k ==> !p(entries[j]);
      assert r[k] == entry;
    case None =>
      assert forall j :: 0 <= j < |entries| ==> !p(entries[j]);
      assert r[|entries|] == entry;
  }

  /** Entries whose name differs from the new entry's are exactly the ones kept, in order and in place. */
  lemma UpsertKeepsOtherNames(entries: seq<InstalledPackage>, entry: InstalledPackage, j: nat)
    requires j < |entries| && entries[j].name != entry.name
    ensures j < |Upserted(entries, entry)| && Upserted(entries, entry)[j] == entries[j]
  {
    var p := EntryNamed(entry.name);
    assert !p(entries[j]);
  }

  /** Upserting keeps names distinct, and afterwards exactly one entry carries the new name: the new entry. */
  lemma UpsertKeepsDistinct(entries: seq<InstalledPackage>, entry: InstalledPackage)
    requires DistinctNames(entries)
    ensures DistinctNames(Upserted(entries, entry))
    ensures forall j :: 0 <= j < |Upserted(entries, entry)| && Upserted(entries, entry)[j].name == entry.name ==>
      Upserted(entries, entry)[j] == entry
  {
    var p := EntryNamed(entry.name);
    var r := Upserted(entries, entry);
    match FirstIndex(entries, p)
    case Some(k) =>
      assert p(entries[k]);
      forall j | 0 <= j < |r| && j != k
        ensures r[j] == entries[j] && r[j].name != entry.name
      {
        if j < k { assert entries[j].name != entries[k].name; }
        else { assert entries[k].name != entries[j].name; }
      }
    case None =>
      assert forall j :: 0 <= j < |entries| ==> !p(entries[j]);
      assert forall j :: 0 <= j < |entries| ==> r[j] == entries[j];
  }

  /** After an upsert, an exact-name lookup of that name finds the new entry. */
  lemma UpsertThenLookup(entries: seq<InstalledPackage>, entry: InstalledPackage)
    ensures var r := Upserted(entries, entry);
      exists k :: FirstIndex(r, EntryNamed(entry.name)) == Some(k) && r[k] == entry
  {
    var p := EntryNamed(entry.name);
    var r := Upserted(entries, entry);
    match FirstIndex(entries, p)
    case Some(k) =>
      assert forall j :: 0 <= j < k ==> !p(entries[j]);
      assert forall j :: 0 <= j < k ==> !p(r[j]);
      assert r[k] == entry && p(r[k]);
      FirstIndexIs(r, p, k);
    case None =>
      var k := |entries|;
      assert forall j :: 0 <= j < k ==> !p(r[j]);
      assert r[k] == entry && p(r[k]);
      FirstIndexIs(r, p, k);
  }

  // ---------------------------------------------------------------------------
  // Removal by position

  /** The list without the entry at position k (the slice splice of UninstallPackage). */
  function RemovedAt(entries: seq<InstalledPackage>, k: nat): seq<InstalledPackage>
    requires k < |entries|
  {
    entries[..k] + entries[k + 1..]
  }

  /** Removal drops exactly the entry at k and keeps the others in their order. */
  lemma RemovedAtKeepsOthers(entries: seq<InstalledPackage>, k: nat)
    requires k < |entries|
    ensures var r := RemovedAt(entries, k);
      && |r| == |entries| - 1
      && (forall j :: 0 <= j < k ==> r[j] == entries[j])
      && (forall j :: k <= j < |r| ==> r[j] == entries[j + 1])
      && multiset(r) + multiset{entries[k]} == multiset(entries)
  {
    var r := RemovedAt(entries, k);
    assert entries == entries[..k] + [entries[k]] + entries[k + 1..];
  }

  /** Removal keeps names distinct, and then no entry carries the removed name. */
  lemma RemovedAtKeepsDistinct(entries: seq<InstalledPackage>, k: nat)
    requires k < |entries| && DistinctNames(entries)
    ensures DistinctNames(RemovedAt(entries, k))
    ensures forall j :: 0 <= j < |RemovedAt(entries, k)| ==> RemovedAt(entries, k)[j].name != entries[k].name
  {
    var r := RemovedAt(entries, k);
    RemovedAtKeepsOthers(entries, k);
    forall i, j | 0 <= i < j < |r|
      ensures r[i].name != r[j].name
    {
      var i' := if i < k then i else i + 1;
      var j' := if j < k then j else j + 1;
      assert r[i] == entries[i'] && r[j] == entries[j'] && i' < j';
    }
    forall j | 0 <= j < |r|
      ensures r[j].name != entries[k].name
    {
      var j' := if j < k then j else j + 1;
      assert r[j] == entries[j'] && j' != k;
    }
  }
}
