/**
  The change detector `check_for_updates` (app.py:270-311): capture the
  modification times of the current local notes and of the registered
  external files that exist, load the last ingestion snapshot, and report
  whether some current path is missing from it or its time differs from a
  fresh read. Any failure to read a file it needs counts as "changed".
  The filesystem does not change during one call.
*/
module Detector {
  import opened Wrappers
  import opened Paths
  import opened Sources
  import opened Registry
  import opened Ingest

  /** The registered paths that exist, in registry order, whatever their suffix (app.py:287-290). */
  function ExistingPaths(es: seq<Entry>, fs: FileSystem): (r: seq<string>)
    ensures forall p :: p in r ==> p in fs
  {
    if es == [] then []
    else ExistingPaths(es[..|es| - 1], fs) + (if es[|es| - 1].path in fs then [es[|es| - 1].path] else [])
  }

  lemma {:induction false} ExistingPathsExactly(es: seq<Entry>, fs: FileSystem, p: string)
    ensures p in ExistingPaths(es, fs) <==> (exists e :: e in es && e.path == p) && p in fs
  {
    if es != [] {
      var init := es[..|es| - 1];
      ExistingPathsExactly(init, fs, p);
      assert forall x :: x in es <==> x in init || x == es[|es| - 1];
    }
  }

  /** The `{path: os.path.getmtime(path)}` dictionary for the paths that can be read. */
  function Captured(paths: seq<string>, fs: FileSystem): (m: map<string, Mtime>)
    ensures forall p :: p in m <==> p in paths && p in fs
    ensures forall p :: p in m ==> m[p] == fs[p].mtime
  {
    map p | p in paths && p in fs :: fs[p].mtime
  }

  lemma CapturedSnoc(before: map<string, Mtime>, paths: seq<string>, p: string, fs: FileSystem)
    requires p in fs
    ensures before + Captured(paths + [p], fs) == (before + Captured(paths, fs))[p := fs[p].mtime]
  {
    var m1 := before + Captured(paths + [p], fs);
    var m2 := (before + Captured(paths, fs))[p := fs[p].mtime];
    assert m1.Keys == m2.Keys;
    forall q | q in m1
      ensures m1[q] == m2[q]
    {
    }
  }

  lemma CapturedAppend(a: seq<string>, b: seq<string>, fs: FileSystem)
    ensures Captured(a + b, fs) == Captured(a, fs) + Captured(b, fs)
  {
  }

  /**
    `any(path not in listed or current.get(path) != os.path.getmtime(path)
    for path in current)`: None when the snapshot lacks the key and the
    first step raises KeyError; the key is not looked up when `current` is
    empty. The guard `p in fs` holds of every captured path.
  */
  function AnyChanged(current: map<string, Mtime>, listed: Option<seq<string>>, fs: FileSystem): (r: Option<bool>)
    ensures r.None? <==> current != map[] && listed.None?
    ensures r == Some(true) ==> exists p :: p in current
  {
    if current == map[] then Some(false)
    else if listed.None? then None
    else Some(exists p :: p in current && (p !in listed.value || (p in fs && current[p] != fs[p].mtime)))
  }

  /** What `check_for_updates()` returns. */
  function NeedsReingestion(walk: seq<WalkDir>, fs: FileSystem, reg: Store, snap: SnapshotStore): (r: bool)
    ensures !r ==> reg.Valid? && snap.Snapshot? && (forall p :: p in LocalPaths(walk) ==> p in fs)
  {
    var localPaths := LocalPaths(walk);
    if exists p :: p in localPaths && p !in fs then true                      // getmtime raises
    else if !reg.Valid? then true                                            // open or json.load raises
    else if !snap.Snapshot? then true                                        // open or json.load raises
    else
      var localChanged := AnyChanged(Captured(localPaths, fs), snap.localFiles, fs);
      var externalChanged := AnyChanged(Captured(ExistingPaths(reg.entries, fs), fs), snap.externalFiles, fs);
      if localChanged.None? || externalChanged.None? then true                // KeyError
      else localChanged.value || externalChanged.value
  }

  /** The inner loop of app.py:279-282 over one directory, adding to `local`. */
  method CaptureDir(root: string, files: seq<string>, fs: FileSystem, before: map<string, Mtime>)
    returns (local: map<string, Mtime>, raised: bool)
    ensures raised <==> exists p :: p in TxtPathsIn(root, files) && p !in fs
    ensures !raised ==> local == before + Captured(TxtPathsIn(root, files), fs)
  {
    local := before;
    ghost var paths: seq<string> := [];
    for j := 0 to |files|
      invariant paths == TxtPathsIn(root, files[..j])
      invariant forall p :: p in paths ==> p in fs
      invariant local == before + Captured(paths, fs)
    {
      TxtPathsInSnoc(root, files, j);
      if HasTxtSuffix(files[j]) {
        var path := Join(root, files[j]);
        if path !in fs {
          TxtPathInDir(root, files, j);
          return local, true;
        }
        CapturedSnoc(before, paths, path, fs);
        local := local[path := fs[path].mtime];
        paths := paths + [path];
      }
    }
    assert files[..|files|] == files;
    raised := false;
  }

  /** One more file of the directory adds at most its own path. */
  lemma TxtPathsInSnoc(root: string, files: seq<string>, j: nat)
    requires j < |files|
    ensures TxtPathsIn(root, files[..j + 1]) ==
      TxtPathsIn(root, files[..j]) + (if HasTxtSuffix(files[j]) then [Join(root, files[j])] else [])
  {
    assert files[..j + 1][..j] == files[..j];
  }

  /** Each `.txt` file of the directory is enumerated. */
  lemma TxtPathInDir(root: string, files: seq<string>, j: nat)
    requires j < |files| && HasTxtSuffix(files[j])
    ensures Join(root, files[j]) in TxtPathsIn(root, files)
  {
    TxtPathsInExactly(root, files, Join(root, files[j]));
  }

  /** The local loop of app.py:278-282; `raised` when a walked path cannot be read. */
  method CaptureLocal(walk: seq<WalkDir>, fs: FileSystem) returns (local: map<string, Mtime>, raised: bool)
    ensures raised <==> exists p :: p in LocalPaths(walk) && p !in fs
    ensures !raised ==> local == Captured(LocalPaths(walk), fs)
  {
    local := map[];
    for i := 0 to |walk|
      invariant forall p :: p in LocalPaths(walk[..i]) ==> p in fs
      invariant local == Captured(LocalPaths(walk[..i]), fs)
    {
      assert walk[..i + 1][..i] == walk[..i];
      var dirRaised;
      local, dirRaised := CaptureDir(walk[i].root, walk[i].files, fs, local);
      if dirRaised {
        var p :| p in TxtPathsIn(walk[i].root, walk[i].files) && p !in fs;
        assert p in LocalPaths(walk[..i + 1]);
        LocalPathsGrow(walk, i + 1, p);
        return local, true;
      }
      CapturedAppend(LocalPaths(walk[..i]), TxtPathsIn(walk[i].root, walk[i].files), fs);
    }
    assert walk[..|walk|] == walk;
    raised := false;
  }

  /** The registry loop of app.py:287-290. */
  method CaptureExternal(entries: seq<Entry>, fs: FileSystem) returns (external: map<string, Mtime>)
    ensures external == Captured(ExistingPaths(entries, fs), fs)
  {
    external := map[];
    ghost var paths: seq<string> := [];
    for k := 0 to |entries|
      invariant paths == ExistingPaths(entries[..k], fs)
      invariant external == Captured(paths, fs)
    {
      assert entries[..k + 1][..k] == entries[..k];
      var path := entries[k].path;
      if path in fs {
        CapturedSnoc(map[], paths, path, fs);
        assert map[] + Captured(paths, fs) == external;
        assert map[] + Captured(paths + [path], fs) == Captured(paths + [path], fs);
        external := external[path := fs[path].mtime];
        paths := paths + [path];
      }
    }
    assert entries[..|entries|] == entries;
  }

  /** `check_for_updates()` (app.py:270-311). */
  method CheckForUpdates(walk: seq<WalkDir>, fs: FileSystem, reg: Store, snap: SnapshotStore) returns (changed: bool)
    ensures changed == NeedsReingestion(walk, fs, reg, snap)
  {
    var local, raised := CaptureLocal(walk, fs);
    if raised {
      return true;
    }
    if !reg.Valid? {
      return true;
    }
    var external := CaptureExternal(reg.entries, fs);
    if !snap.Snapshot? {
      return true;
    }
    var localChanged := AnyChanged(local, snap.localFiles, fs);
    var externalChanged := AnyChanged(external, snap.externalFiles, fs);
    if localChanged.None? || externalChanged.None? {
      return true;
    }
    changed := localChanged.value || externalChanged.value;
  }

  // ---- what the detector really decides ----

  /** On a static filesystem the modification-time comparison never fires. */
  lemma {:induction false} AnyChangedIsMembership(paths: seq<string>, listed: seq<string>, fs: FileSystem)
    requires forall p :: p in paths ==> p in fs
    ensures AnyChanged(Captured(paths, fs), Some(listed), fs) == Some(exists p :: p in paths && p !in listed)
  {
    var current := Captured(paths, fs);
    if current != map[] {
      assert forall p :: p in current ==> current[p] == fs[p].mtime;
    }
  }

  /** The three failure cases force re-ingestion (app.py:285-294, app.py:310-311). */
  lemma UnreadableStateForcesReingestion(walk: seq<WalkDir>, fs: FileSystem, reg: Store, snap: SnapshotStore)
    requires !reg.Valid? || !snap.Snapshot?
    ensures NeedsReingestion(walk, fs, reg, snap)
  {
  }

  /** A snapshot lacking a key forces re-ingestion when there is something to look up in it. */
  lemma MissingKeyForcesReingestion(walk: seq<WalkDir>, fs: FileSystem, es: seq<Entry>, snap: SnapshotStore)
    requires snap.Snapshot?
    requires (snap.localFiles.None? && LocalPaths(walk) != []) ||
             (snap.externalFiles.None? && ExistingPaths(es, fs) != [])
    ensures NeedsReingestion(walk, fs, Valid(es), snap)
  {
    if exists p :: p in LocalPaths(walk) && p !in fs {
    } else if snap.localFiles.None? && LocalPaths(walk) != [] {
      assert LocalPaths(walk)[0] in Captured(LocalPaths(walk), fs);
    } else {
      assert ExistingPaths(es, fs)[0] in Captured(ExistingPaths(es, fs), fs);
    }
  }

  /**
    With the files found by the walk present and both keys in the
    snapshot, the detector only asks whether some current local note, or
    some existing registered path, is absent from the matching list.
  */
  lemma ReducedCondition(walk: seq<WalkDir>, fs: FileSystem, es: seq<Entry>, localFiles: seq<string>, externalFiles: seq<string>, t: string)
    requires forall p :: p in LocalPaths(walk) ==> p in fs
    ensures NeedsReingestion(walk, fs, Valid(es), Snapshot(Some(localFiles), Some(externalFiles), t)) <==>
      (exists p :: p in LocalPaths(walk) && p !in localFiles) ||
      (exists p :: p in ExistingPaths(es, fs) && p !in externalFiles)
  {
    AnyChangedIsMembership(LocalPaths(walk), localFiles, fs);
    AnyChangedIsMembership(ExistingPaths(es, fs), externalFiles, fs);
  }

  /**
    Touching a file is never noticed: two filesystems with the same paths
    give the same answer, whatever the modification times.
  */
  lemma TouchIsNotDetected(walk: seq<WalkDir>, fs: FileSystem, touched: FileSystem, reg: Store, snap: SnapshotStore)
    requires fs.Keys == touched.Keys
    ensures NeedsReingestion(walk, fs, reg, snap) == NeedsReingestion(walk, touched, reg, snap)
  {
    var localPaths := LocalPaths(walk);
    if !(exists p :: p in localPaths && p !in fs) && reg.Valid? && snap.Snapshot? {
      var ext := ExistingPaths(reg.entries, fs);
      assert ext == ExistingPaths(reg.entries, touched) by {
        ExistingPathsKeysOnly(reg.entries, fs, touched);
      }
      AnyChangedKeysOnly(localPaths, snap.localFiles, fs, touched);
      AnyChangedKeysOnly(ext, snap.externalFiles, fs, touched);
    }
  }

  lemma {:induction false} ExistingPathsKeysOnly(es: seq<Entry>, fs: FileSystem, touched: FileSystem)
    requires fs.Keys == touched.Keys
    ensures ExistingPaths(es, fs) == ExistingPaths(es, touched)
  {
    if es != [] {
      ExistingPathsKeysOnly(es[..|es| - 1], fs, touched);
    }
  }

  lemma AnyChangedKeysOnly(paths: seq<string>, listed: Option<seq<string>>, fs: FileSystem, touched: FileSystem)
    requires fs.Keys == touched.Keys
    requires forall p :: p in paths ==> p in fs
    ensures AnyChanged(Captured(paths, fs), listed, fs) == AnyChanged(Captured(paths, touched), listed, touched)
  {
    assert Captured(paths, fs).Keys == Captured(paths, touched).Keys;
    if listed.Some? {
      AnyChangedIsMembership(paths, listed.value, fs);
      AnyChangedIsMembership(paths, listed.value, touched);
    }
  }

  /**
    Paths listed in the snapshot but no longer current never make the
    detector answer true.
  */
  lemma StaleSnapshotEntriesIgnored(walk: seq<WalkDir>, fs: FileSystem, es: seq<Entry>,
                                    localFiles: seq<string>, externalFiles: seq<string>,
                                    staleLocal: seq<string>, staleExternal: seq<string>, t: string)
    requires forall p :: p in LocalPaths(walk) ==> p in fs
    requires forall p :: p in staleLocal ==> p !in LocalPaths(walk)
    requires forall p :: p in staleExternal ==> p !in ExistingPaths(es, fs)
    ensures NeedsReingestion(walk, fs, Valid(es), Snapshot(Some(localFiles + staleLocal), Some(externalFiles + staleExternal), t)) ==
            NeedsReingestion(walk, fs, Valid(es), Snapshot(Some(localFiles), Some(externalFiles), t))
  {
    ReducedCondition(walk, fs, es, localFiles + staleLocal, externalFiles + staleExternal, t);
    ReducedCondition(walk, fs, es, localFiles, externalFiles, t);
  }

  // ---- ingestion followed by detection ----

  /** Every existing registered `.txt` path is ingested. */
  lemma {:induction false} ExistingTxtPathsAreIngestable(es: seq<Entry>, fs: FileSystem)
    requires forall e :: e in es ==> HasTxtSuffix(e.path)
    ensures ExistingPaths(es, fs) == IngestablePaths(es, fs)
  {
    if es != [] {
      var init := es[..|es| - 1];
      assert forall e :: e in init ==> e in es;
      ExistingTxtPathsAreIngestable(init, fs);
    }
  }

  /**
    The round trip: on an unchanged filesystem, with a registry file whose
    paths all end in ".txt", the snapshot written by ingestion makes the
    detector answer false.
  */
  lemma IngestThenCheckFindsNothing(walk: seq<WalkDir>, fs: FileSystem, es: seq<Entry>, now: string)
    requires forall p :: p in LocalPaths(walk) ==> p in fs
    requires forall e :: e in es ==> HasTxtSuffix(e.path)
    ensures !NeedsReingestion(walk, fs, Valid(es), Snapshot(Some(LocalPaths(walk)), Some(ExternalCandidates(Valid(es), fs)), now))
  {
    ExistingTxtPathsAreIngestable(es, fs);
    ReducedCondition(walk, fs, es, LocalPaths(walk), IngestablePaths(es, fs), now);
  }

  /** The same round trip, run: ingest, then check. */
  method IngestThenCheck(walk: seq<WalkDir>, fs: FileSystem, es: seq<Entry>, now: string) returns (changed: bool)
    requires forall p :: p in LocalPaths(walk) ==> p in fs
    requires forall e :: e in es ==> HasTxtSuffix(e.path)
    ensures !changed
  {
    var outcome := IngestNotes(walk, fs, Valid(es), true, now);
    IngestThenCheckFindsNothing(walk, fs, es, now);
    changed := CheckForUpdates(walk, fs, Valid(es), SnapshotAfter(NoSnapshot, outcome));
  }

  /**
    Without a registry file ingestion succeeds, yet the detector keeps
    answering true: every query re-ingests.
  */
  lemma MissingRegistryNeverSettles(walk: seq<WalkDir>, fs: FileSystem, snap: SnapshotStore)
    ensures NeedsReingestion(walk, fs, Missing, snap)
  {
  }

  /**
    A walked `.txt` name that does not exist (a broken symbolic link) is
    still listed in the snapshot ingestion writes, but the detector's
    `getmtime` raises on it: every query re-ingests.
  */
  lemma MissingNoteNeverSettles(walk: seq<WalkDir>, fs: FileSystem, reg: Store, snap: SnapshotStore, p: string)
    requires p in LocalPaths(walk) && p !in fs
    ensures p in MetaPaths(Metas(LocalPaths(walk), fs))
    ensures NeedsReingestion(walk, fs, reg, snap)
  {
    MetaPathsOfMetas(LocalPaths(walk), fs);
  }

  /**
    A registered path that exists but does not end in ".txt" is never
    ingested, yet the detector looks for it: the round trip then fails.
  */
  lemma NonTxtRegistryPathNeverSettles(walk: seq<WalkDir>, fs: FileSystem, es: seq<Entry>, e: Entry, now: string)
    requires forall p :: p in LocalPaths(walk) ==> p in fs
    requires e in es && e.path in fs && !HasTxtSuffix(e.path)
    ensures NeedsReingestion(walk, fs, Valid(es), Snapshot(Some(LocalPaths(walk)), Some(ExternalCandidates(Valid(es), fs)), now))
  {
    ExistingPathsExactly(es, fs, e.path);
    ReducedCondition(walk, fs, es, LocalPaths(walk), IngestablePaths(es, fs), now);
  }
}
