/**
  Ingestion bookkeeping (ingest.py:12-76): enumerate local notes and the
  registered external files, tag and read them into documents, and write
  the snapshot `vector_store/metadata.json` of the enumerated paths.
  Splitting, embedding and the vector index are opaque: their success or
  failure is the parameter `indexSaved`.
*/
module Ingest {
  import opened Wrappers
  import opened Paths
  import opened Sources
  import opened Registry

  datatype SourceType = Local | External

  /** `get_file_metadata(path)`. */
  datatype FileMeta = FileMeta(path: string, mtime: Option<Mtime>, sourceType: SourceType)

  /** A LangChain `Document`: the file's text and its metadata. */
  datatype Document = Document(content: string, source: string, sourceType: SourceType, mtime: Option<Mtime>)

  /**
    `vector_store/metadata.json` as a reader finds it: absent, not valid
    JSON, or an object whose `local_files` / `external_files` keys may be
    missing (None).
  */
  datatype SnapshotStore =
    | NoSnapshot
    | CorruptSnapshot
    | Snapshot(localFiles: Option<seq<string>>, externalFiles: Option<seq<string>>, timestamp: string)

  /**
    How a run of `ingest_notes` ends: the registry could not be parsed
    (the JSONDecodeError escapes), the index could not be built or saved,
    or the documents were indexed and the snapshot written.
  */
  datatype IngestOutcome =
    | RegistryUnreadable
    | IndexFailed
    | Ingested(documents: seq<Document>, snapshot: SnapshotStore)

  /** `get_file_metadata` (ingest.py:12-17). */
  function GetFileMetadata(path: string, fs: FileSystem): (m: FileMeta)
    ensures m.path == path
    ensures m.sourceType == External <==> IsAbs(path)
    ensures m.mtime == None <==> path !in fs
    ensures path in fs ==> m.mtime == Some(fs[path].mtime)
  {
    FileMeta(path, if path in fs then Some(fs[path].mtime) else None, if IsAbs(path) then External else Local)
  }

  /** Metadata for each path, in order. */
  function Metas(paths: seq<string>, fs: FileSystem): (r: seq<FileMeta>)
    ensures |r| == |paths|
    ensures forall k :: 0 <= k < |paths| ==> r[k] == GetFileMetadata(paths[k], fs)
  {
    if paths == [] then [] else Metas(paths[..|paths| - 1], fs) + [GetFileMetadata(paths[|paths| - 1], fs)]
  }

  /** `[f["path"] for f in files]` (ingest.py:71-72). */
  function MetaPaths(ms: seq<FileMeta>): (r: seq<string>)
    ensures |r| == |ms| && forall k :: 0 <= k < |ms| ==> r[k] == ms[k].path
  {
    seq(|ms|, k requires 0 <= k < |ms| => ms[k].path)
  }

  /**
    The registered paths that still exist and end in `.txt`, in registry
    order (ingest.py:36-38).
  */
  function IngestablePaths(es: seq<Entry>, fs: FileSystem): (r: seq<string>)
    ensures forall p :: p in r ==> p in fs && HasTxtSuffix(p)
  {
    if es == [] then []
    else
      var e := es[|es| - 1];
      IngestablePaths(es[..|es| - 1], fs) + (if e.path in fs && HasTxtSuffix(e.path) then [e.path] else [])
  }

  /** A registered path is an external file exactly when it exists and ends in `.txt`. */
  lemma {:induction false} IngestablePathsExactly(es: seq<Entry>, fs: FileSystem, p: string)
    ensures p in IngestablePaths(es, fs) <==> (exists e :: e in es && e.path == p) && p in fs && HasTxtSuffix(p)
  {
    if es != [] {
      var init := es[..|es| - 1];
      IngestablePathsExactly(init, fs, p);
      assert forall x :: x in es <==> x in init || x == es[|es| - 1];
    }
  }

  lemma IngestablePathsSnoc(es: seq<Entry>, e: Entry, fs: FileSystem)
    ensures IngestablePaths(es + [e], fs) == IngestablePaths(es, fs) + (if e.path in fs && HasTxtSuffix(e.path) then [e.path] else [])
  {
    assert (es + [e])[..|es|] == es;
  }

  /** Two runs of records give the first run's external files, then the second's, each in registry order. */
  lemma {:induction false} IngestablePathsAppend(a: seq<Entry>, b: seq<Entry>, fs: FileSystem)
    ensures IngestablePaths(a + b, fs) == IngestablePaths(a, fs) + IngestablePaths(b, fs)
  {
    if b == [] {
      assert a + b == a;
    } else {
      var init, last := b[..|b| - 1], b[|b| - 1];
      assert b == init + [last];
      assert a + b == (a + init) + [last];
      IngestablePathsAppend(a, init, fs);
      IngestablePathsSnoc(a + init, last, fs);
      IngestablePathsSnoc(init, last, fs);
    }
  }

  /**
    The external files of one run: none when the registry file is absent
    (the FileNotFoundError is caught, ingest.py:39-40).
  */
  function ExternalCandidates(reg: Store, fs: FileSystem): (r: seq<string>)
    ensures !reg.Valid? ==> r == []
    ensures reg.Valid? ==> r == IngestablePaths(reg.entries, fs)
    ensures forall p :: p in r ==> p in fs && HasTxtSuffix(p)
  {
    if reg.Valid? then IngestablePaths(reg.entries, fs) else []
  }

  /** The file opens and decodes. */
  predicate Readable(path: string, fs: FileSystem) {
    path in fs && fs[path].content.Some?
  }

  /** The document built from one readable file (ingest.py:47-54). */
  function DocumentOf(m: FileMeta, fs: FileSystem): Document
    requires Readable(m.path, fs)
  {
    Document(fs[m.path].content.value, m.path, m.sourceType, m.mtime)
  }

  /**
    The documents of a run, in file order: a file that fails to open or
    read contributes none (ingest.py:44-56).
  */
  function ReadDocuments(ms: seq<FileMeta>, fs: FileSystem): (docs: seq<Document>)
    ensures |docs| <= |ms|
    ensures forall d :: d in docs ==> Readable(d.source, fs)
    ensures forall d :: d in docs ==> exists m :: m in ms && Readable(m.path, fs) && d == DocumentOf(m, fs)
    ensures forall m :: m in ms && Readable(m.path, fs) ==> DocumentOf(m, fs) in docs
  {
    if ms == [] then []
    else
      var m := ms[|ms| - 1];
      var init := ms[..|ms| - 1];
      var docs := ReadDocuments(init, fs) + (if Readable(m.path, fs) then [DocumentOf(m, fs)] else []);
      assert forall x :: x in ms <==> x in init || x == m;
      docs
  }

  /** Reading a concatenation reads the first part, then the second. */
  lemma {:induction false} ReadDocumentsAppend(a: seq<FileMeta>, b: seq<FileMeta>, fs: FileSystem)
    ensures ReadDocuments(a + b, fs) == ReadDocuments(a, fs) + ReadDocuments(b, fs)
  {
    if b == [] {
      assert a + b == a;
    } else {
      var init := b[..|b| - 1];
      assert (a + b)[..|a + b| - 1] == a + init;
      ReadDocumentsAppend(a, init, fs);
    }
  }

  /** The snapshot lists the paths of the enumerated files, in order. */
  lemma {:induction false} MetaPathsOfMetas(paths: seq<string>, fs: FileSystem)
    ensures MetaPaths(Metas(paths, fs)) == paths
  {
  }

  lemma MetasSnoc(paths: seq<string>, path: string, fs: FileSystem)
    ensures Metas(paths + [path], fs) == Metas(paths, fs) + [GetFileMetadata(path, fs)]
  {
    assert (paths + [path])[..|paths|] == paths;
  }

  lemma MetasAppend(a: seq<string>, b: seq<string>, fs: FileSystem)
    ensures Metas(a + b, fs) == Metas(a, fs) + Metas(b, fs)
  {
  }

  /** The inner loop of ingest.py:26-29: the `.txt` files of one directory. */
  method EnumerateDir(root: string, files: seq<string>, fs: FileSystem) returns (dirFiles: seq<FileMeta>)
    ensures dirFiles == Metas(TxtPathsIn(root, files), fs)
  {
    dirFiles := [];
    for j := 0 to |files|
      invariant dirFiles == Metas(TxtPathsIn(root, files[..j]), fs)
    {
      assert files[..j + 1][..j] == files[..j];
      if HasTxtSuffix(files[j]) {
        var path := Join(root, files[j]);
        MetasSnoc(TxtPathsIn(root, files[..j]), path, fs);
        dirFiles := dirFiles + [GetFileMetadata(path, fs)];
      }
    }
    assert files[..|files|] == files;
  }

  /** The local loop of ingest.py:24-29: metadata of every `.txt` file of the walk. */
  method EnumerateLocal(walk: seq<WalkDir>, fs: FileSystem) returns (localFiles: seq<FileMeta>)
    ensures localFiles == Metas(LocalPaths(walk), fs)
  {
    localFiles := [];
    for i := 0 to |walk|
      invariant localFiles == Metas(LocalPaths(walk[..i]), fs)
    {
      assert walk[..i + 1][..i] == walk[..i];
      var dirFiles := EnumerateDir(walk[i].root, walk[i].files, fs);
      MetasAppend(LocalPaths(walk[..i]), TxtPathsIn(walk[i].root, walk[i].files), fs);
      localFiles := localFiles + dirFiles;
    }
    assert walk[..|walk|] == walk;
  }

  /** The registry loop of ingest.py:36-38. */
  method EnumerateExternal(entries: seq<Entry>, fs: FileSystem) returns (externalFiles: seq<FileMeta>)
    ensures externalFiles == Metas(IngestablePaths(entries, fs), fs)
  {
    externalFiles := [];
    ghost var paths: seq<string> := [];
    for k := 0 to |entries|
      invariant paths == IngestablePaths(entries[..k], fs)
      invariant externalFiles == Metas(paths, fs)
    {
      assert entries[..k + 1][..k] == entries[..k];
      var path := entries[k].path;
      if path in fs && HasTxtSuffix(path) {
        MetasSnoc(paths, path, fs);
        externalFiles := externalFiles + [GetFileMetadata(path, fs)];
        paths := paths + [path];
      }
    }
    assert entries[..|entries|] == entries;
  }

  /** The reading loop of ingest.py:43-56. */
  method ReadAll(allFiles: seq<FileMeta>, fs: FileSystem) returns (documents: seq<Document>)
    ensures documents == ReadDocuments(allFiles, fs)
  {
    documents := [];
    for k := 0 to |allFiles|
      invariant documents == ReadDocuments(allFiles[..k], fs)
    {
      assert allFiles[..k + 1][..k] == allFiles[..k];
      var meta := allFiles[k];
      if meta.path in fs && fs[meta.path].content.Some? {
        documents := documents + [Document(fs[meta.path].content.value, meta.path, meta.sourceType, meta.mtime)];
      }
    }
    assert allFiles[..|allFiles|] == allFiles;
  }

  /** `ingest_notes()` over a walk result, the filesystem and the registry, at time `now`. */
  method IngestNotes(walk: seq<WalkDir>, fs: FileSystem, reg: Store, indexSaved: bool, now: string)
    returns (outcome: IngestOutcome)
    ensures outcome == RegistryUnreadable <==> reg.Empty? || reg.Corrupt?
    ensures outcome == IndexFailed <==> !(reg.Empty? || reg.Corrupt?) && !indexSaved
    ensures outcome.Ingested? ==>
      var localPaths := LocalPaths(walk);
      var externalPaths := ExternalCandidates(reg, fs);
      outcome.documents == ReadDocuments(Metas(localPaths, fs) + Metas(externalPaths, fs), fs) &&
      outcome.snapshot == Snapshot(Some(localPaths), Some(externalPaths), now)
  {
    var localFiles := EnumerateLocal(walk, fs);
    var externalFiles: seq<FileMeta> := [];
    match reg {
      case Missing =>
      case Empty =>
        return RegistryUnreadable;
      case Corrupt =>
        return RegistryUnreadable;
      case Valid(entries) =>
        externalFiles := EnumerateExternal(entries, fs);
    }
    var documents := ReadAll(localFiles + externalFiles, fs);
    // splitting, embedding and saving the index (ingest.py:59-67)
    if !indexSaved {
      return IndexFailed;
    }
    MetaPathsOfMetas(LocalPaths(walk), fs);
    MetaPathsOfMetas(ExternalCandidates(reg, fs), fs);
    outcome := Ingested(documents, Snapshot(Some(MetaPaths(localFiles)), Some(MetaPaths(externalFiles)), now));
  }

  /** What `vector_store/metadata.json` holds after a run: only a completed run rewrites it. */
  function SnapshotAfter(before: SnapshotStore, outcome: IngestOutcome): (after: SnapshotStore)
    ensures outcome.Ingested? ==> after == outcome.snapshot
    ensures after != before ==> outcome.Ingested? && after == outcome.snapshot
  {
    if outcome.Ingested? then outcome.snapshot else before
  }
}
