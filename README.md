# Smart Notes Search: the bookkeeping core, modelled in Dafny

The notes app is a Streamlit page with three parts. Users drop `.txt` notes into `notes/` or register external `.txt` files by absolute path. An ingester turns every note into a document and saves a vector index. On each query, a change detector decides whether the index must be rebuilt first. The answer then lists the source files it used.

This project models the parts of that app that are list, set and string logic:

- **Registry** (`registry.dfy`) models `external_files.json`, the ordered list of `{path, added_at}` records.
  - The file is in one of four states: absent, zero bytes long, not valid JSON, or a list.
  - "Add" checks its input, loads the list with fallbacks, rejects duplicates, appends one record and rewrites the list.
  - "Stop tracking" filters a path out.
  - Both operations appear twice: as pure transitions, and as methods of the class `RegistryFile`, which holds the file's state.
- **Ingestion** (`ingest.py`, modelled in `ingest.dfy`):
  - It collects metadata for the local notes of the directory walk, then for the registered paths that still exist and end in `.txt`.
  - It reads every readable file into a document and writes the snapshot `vector_store/metadata.json` of the enumerated paths.
- **Change detector** (`check_for_updates`, modelled in `detector.dfy`):
  - It captures the modification times of the current files, then compares them with the last snapshot.
  - Every modelled read failure counts as "changed": a missing file, a zero-length or malformed JSON file, or a missing snapshot key that is looked up. A key is looked up only when the matching dictionary of current files is non-empty.
  - The lemmas show what it really decides, and that ingesting and then checking finds nothing to do.
- **Source list** (`display.dfy`): one line per file name of the retrieved documents, in order of first occurrence.
- **Upload name** (`upload.dfy`): `notes/<base>_<seconds><ext>`, built with `os.path.splitext`.
- **Shared pieces**:
  - `sources.dfy` holds the filesystem and the local-note enumeration shared by the sidebar, the detector and the ingester.
  - `paths.dfy` holds the POSIX path functions and `str(int)` that these rely on.

The filesystem is a map from each existing path to its modification time and its text. The text is `None` when opening or decoding the file fails. The map does not change during one call. The result of `os.walk("notes")` is an input sequence of directories, each with its file names. Clock readings are parameters.

## Model

| member | source | states |
|---|---|---|
| Registry.Validate | app.py:156-161 | Each input check fails exactly on its own condition, in order: the empty path, then a path not ending in `.txt` (case-sensitive), then a path that does not exist. A path passes exactly when it ends in `.txt` and exists. |
| Registry.AddTransition | app.py:156-192 | A record is added exactly when the input passes the checks and its path is not among the loaded paths. The store changes only on an add or when a corrupt file is reset. The corruption message is shown exactly when valid input meets a corrupt file. |
| Registry.InvalidInputLeavesStore | app.py:156-161 | A rejected input reports its error, leaves the store as it was and shows no corruption message. |
| Registry.DuplicateLeavesStore | app.py:179-182 | A path already registered is rejected with "Path already exists!" and the list is not rewritten. |
| Registry.AddAppendsOne | app.py:184-192 | A successful add yields the old list plus exactly one record `{path, now}` at the end, with earlier records unchanged and in order. |
| Registry.UnreadableStoreStartsFresh | app.py:164-177 | A missing, zero-length or corrupt file is treated as `[]`, so valid input becomes the only record. The corruption message is shown only for a corrupt file. |
| Registry.AddedPathOccursOnce | app.py:179-188 | After a successful add, exactly one record carries the path. |
| Registry.AddPreservesUniquePaths | app.py:179-192 | Add keeps the registry free of duplicate paths. |
| Registry.AddKeepsTxtPaths | app.py:158-159 | When every stored path ends in `.txt`, every path stored after an add also does, so a registry built only by "Add" meets the hypothesis of the ingest-then-check round trip. |
| Registry.SecondAddFails | app.py:179-182 | Adding the same path again, at any later time and while the file still exists, is rejected as a duplicate and changes nothing. |
| Registry.Without | app.py:40 | A record survives the filter exactly when it was in the list and carries another path. The result is never longer. |
| Registry.WithoutAppend | app.py:40 | Filtering distributes over concatenation, so survivors keep their original order. |
| Registry.WithoutAbsent | app.py:40 | Removing a path that is not registered leaves the list identical. |
| Registry.WithoutPreservesUniquePaths | app.py:40 | Remove keeps the registry free of duplicate paths. |
| Registry.RemoveTransition | app.py:35-49 | Removal succeeds exactly when the file is a valid list, and then stores the filtered list. Otherwise the file is left alone and an error is reported. |
| Registry.AddThenRemove | app.py:35-49 | Removing a path right after adding it restores the list exactly. |
| Registry.RegistryFile.Add | app.py:149-192 | The new file state, the outcome and the corruption flag are those of `AddTransition` on the old state. |
| Registry.RegistryFile.Remove | app.py:35-49 | The new file state and the success flag are those of `RemoveTransition` on the old state. |
| Sources.TxtPathsIn | app.py:279-281 | Every path enumerated in a directory ends in `.txt`. |
| Sources.TxtPathsInExactly | app.py:279-281 | A path is enumerated in a directory exactly when it is the join of the directory and one of its `.txt` file names. |
| Sources.LocalPaths | app.py:278-282 | Every enumerated local note ends in `.txt`. The same enumeration serves ingest.py:25-29. |
| Sources.TxtPathsInAppend | app.py:279-281 | Two runs of file names give the first run's notes, then the second's, in listing order. |
| Sources.LocalPathsAppend | ingest.py:25-29 | Two runs of walked directories give the first run's notes, then the second's, in walk order. |
| Sources.LocalPathsExactly | app.py:278-282 | A path is a local note exactly when it is the join of some walked directory and one of that directory's `.txt` files. |
| Sources.LocalPathsGrow | ingest.py:25-29 | A note found in a prefix of the walk is found in the whole walk. |
| Ingest.GetFileMetadata | ingest.py:12-17 | The source type is external exactly when the path is absolute. The mtime is `None` exactly when the path does not exist, and is the file's time otherwise. |
| Ingest.IngestablePaths | ingest.py:36-38 | Every external file exists and ends in `.txt`. |
| Ingest.IngestablePathsExactly | ingest.py:36-38 | A registered path is an external file exactly when it exists and ends in `.txt`. |
| Ingest.IngestablePathsSnoc | ingest.py:36-38 | One more record adds its own path at the end, and only when it exists and ends in `.txt`. |
| Ingest.IngestablePathsAppend | ingest.py:36-38 | Two runs of records give the first run's external files, then the second's, so external files follow registry order. |
| Ingest.ExternalCandidates | ingest.py:32-40 | A valid registry list gives exactly its ingestable paths (`IngestablePaths` of its records), so the `IngestablePaths` lemmas fix which external files there are and in what order. A registry file that is not a valid list gives no external files. Every external file exists and ends in `.txt`. |
| Ingest.Metas | ingest.py:25-38 | The metadata list has one entry per path, in order, each being that path's metadata. |
| Ingest.MetaPathsOfMetas | ingest.py:70-72 | The snapshot lists exactly the enumerated paths in enumeration order, including files later skipped for read errors. |
| Ingest.ReadDocuments | ingest.py:43-56 | Every document comes from a readable enumerated file and every readable enumerated file gives its document, with `source` equal to the path and type and mtime copied from the metadata. Unreadable files give none. |
| Ingest.ReadDocumentsAppend | ingest.py:43-44 | The documents of local files come before those of external files, each part in its own order. |
| Ingest.EnumerateDir | ingest.py:26-29 | The loop over one directory yields the metadata of its `.txt` paths. |
| Ingest.EnumerateLocal | ingest.py:24-29 | The local loop yields the metadata of every local note, in walk order. |
| Ingest.EnumerateExternal | ingest.py:32-38 | The registry loop yields the metadata of the ingestable registered paths, in registry order. |
| Ingest.ReadAll | ingest.py:43-56 | The reading loop yields exactly the documents of the readable files, in order. |
| Ingest.SnapshotAfter | ingest.py:67-76 | A completed run writes its own snapshot, whatever was there before. A run that aborts leaves the snapshot as it was. |
| Ingest.IngestNotes | ingest.py:19-76 | A zero-length or corrupt registry aborts the run. A missing registry means no external files. A failed index aborts after reading. Otherwise the documents are those of all local, then all external files, and the snapshot lists both path sequences with the run's time. |
| Detector.ExistingPathsExactly | app.py:287-290 | A path is captured from the registry exactly when some record carries it and it exists, whatever its suffix. |
| Detector.Captured | app.py:282 | The captured dictionary has exactly the listed paths that exist as keys, and maps each to its file's modification time. |
| Detector.CaptureDir | app.py:279-282 | The loop over one directory fails exactly when one of its `.txt` paths is missing. Otherwise it adds those paths' times to the dictionary. |
| Detector.CaptureLocal | app.py:278-282 | The local capture fails exactly when some local note is missing. Otherwise it holds every local note's time. |
| Detector.CaptureExternal | app.py:285-290 | The external capture holds the time of every existing registered path. |
| Detector.AnyChanged | app.py:296-306 | The `any(...)` test fails with a `KeyError` exactly when the current dictionary is non-empty and the snapshot lacks the key. It answers `true` only when some path is current. |
| Detector.NeedsReingestion | app.py:270-311 | A `false` answer needs a valid registry, a snapshot, and every walked note present. |
| Detector.CheckForUpdates | app.py:270-311 | The answer is `NeedsReingestion` of the walk, the filesystem, the registry and the snapshot. |
| Detector.AnyChangedIsMembership | app.py:296-306 | On an unchanging filesystem the time comparison never fires, so the `any(...)` test is "some current path is not listed". |
| Detector.UnreadableStateForcesReingestion | app.py:285-294 | A registry or snapshot file that is missing, empty or not valid JSON makes the answer `true`. |
| Detector.MissingKeyForcesReingestion | app.py:296-311 | A snapshot lacking `local_files` (or `external_files`) makes the answer `true` whenever there is a current local note (or existing registered path) to look up. |
| Detector.ReducedCondition | app.py:278-308 | With the walked notes present and both keys in the snapshot, the answer is `true` exactly when some local note or some existing registered path is absent from its list. |
| Detector.TouchIsNotDetected | app.py:296-306 | Two filesystems with the same paths give the same answer, whatever the modification times. |
| Detector.StaleSnapshotEntriesIgnored | app.py:296-306 | Snapshot paths that are no longer current never change the answer. |
| Detector.ExistingTxtPathsAreIngestable | ingest.py:36-38 | When every registered path ends in `.txt`, the detector's external paths are exactly the ingester's. |
| Detector.IngestThenCheckFindsNothing | ingest.py:70-76 | If the filesystem is unchanged, every walked note exists, the registry exists and every registered path ends in `.txt`, the snapshot that ingestion writes makes the detector answer `false`. |
| Detector.IngestThenCheck | app.py:318-321 | Running ingestion with a saved index and then the detector gives `false` under the same conditions, including that every walked note exists. |
| Detector.MissingNoteNeverSettles | app.py:279-282 | A walked `.txt` name that does not exist is still listed in the snapshot ingestion writes, and the detector answers `true` whatever the registry and the snapshot hold. |
| Detector.MissingRegistryNeverSettles | app.py:285-286 | Without `external_files.json` the detector always answers `true`, although ingestion succeeds. |
| Detector.NonTxtRegistryPathNeverSettles | app.py:287-290 | For any walk whose notes are present, an existing registered path without the `.txt` suffix is captured but never ingested, so the check after ingesting still answers `true`. |
| Display.Lines | app.py:339-345 | Each retrieved document gives the line of its source's basename and dirname, in retrieval order. |
| Display.FirstOccurrencesNames | app.py:338-346 | The shown file names are exactly the file names of the retrieved documents, and no name is shown twice. |
| Display.FirstOccurrencesAreFirst | app.py:342-346 | Each shown line is the line of a document whose file name no earlier document had. |
| Display.FirstOccurrencesPrefix | app.py:338-346 | More documents only append lines, so lines appear in order of first occurrence. |
| Display.ShowSources | app.py:338-346 | The loop with its `seen_sources` set shows exactly the first-occurrence lines of the documents. |
| Paths.Join | app.py:103 | An absolute second part replaces the first. Otherwise the result starts with the first part and ends with the second. |
| Paths.Basename | app.py:341 | `os.path.basename`, the text after the last slash. Its properties are stated by `BasenameIsLastComponent` and `BasenameOfJoin`. |
| Paths.Dirname | app.py:345 | `os.path.dirname`, with trailing slashes removed unless the head is all slashes. Its property is stated by `DirnameOfJoin`. |
| Paths.BasenameIsLastComponent | app.py:341 | A basename ends its path, contains no slash, and is either the whole path or preceded by a slash: it is the text after the last slash. |
| Paths.BasenameOfJoin | app.py:341 | The basename of a directory joined with a file name without slashes is that file name. |
| Paths.DirnameOfJoin | app.py:345 | The dirname of a directory joined with a file name without slashes is that directory. |
| Paths.SplitExt | app.py:100-101 | Base and extension put back together give the name. The extension is empty, or is a dot followed by neither a dot nor a slash. |
| Paths.SplitExtHasExtension | app.py:100-101 | The extension is non-empty exactly when the last path component has a dot after some character that is not a dot. So a name made only of dots before its last dot, such as `.txt`, has no extension. |
| Paths.DecimalRoundTrip | app.py:102 | The decimal text of the integer timestamp reads back as the same number. |
| Upload.SaveTarget | app.py:87-103 | An upload is saved exactly when its lower-cased name ends in `.txt`. It is then written under `notes/` as `UniqueName(name, seconds)`, the `base_<seconds><ext>` name that `UniqueNameSplits` describes, which differs from the uploaded one. |
| Upload.UniqueName | app.py:100-102 | The saved name is the uploaded name lengthened by `_` and the decimal seconds. |
| Upload.UniqueNameSplits | app.py:100-102 | The saved name splits into the uploaded base with `_<seconds>` appended, and the uploaded extension unchanged. |
| Upload.UniqueNameInjective | app.py:102 | Uploads of one name at different seconds get different names. |
| Upload.SavedNameIsNoteIff | app.py:90-103 | As written, an accepted upload is saved under a `.txt` path exactly when `splitext` finds the extension `.txt`, in lower case. |
| Upload.UpperCaseUploadIsInvisible | app.py:90-103 | "Note.TXT" is accepted but saved under a name that does not end in `.txt`. |
| Upload.DotTxtUploadIsInvisible | app.py:90-103 | ".txt" is accepted, but `splitext` finds no extension in it, so it is saved under a name that does not end in `.txt`. |
| Upload.SaveTargetAsNote | app.py:87-103 | Corrected naming: an accepted upload is saved under `notes/` with a name that keeps the uploaded name up to its four-character ending and ends in `.txt`. |
| Upload.AcceptedUploadIsEnumerated | app.py:278-282 | With the corrected naming, an accepted upload is found as a local note by any walk that lists it in `notes`. |

## Left out

- The Streamlit interface is not modelled: widgets, `session_state`, `st.rerun`, `time.sleep`, confirmation dialogs and messages. Outcomes stand in for the messages.
- `helper_functions.py` is not part of this model.
- The sidebar listings are not modelled. These are the sorted local-note list (app.py:217-233) and the external list with its "File not found!" warnings (app.py:237-258). They only display state.
- Deleting a local note with `os.remove` (app.py:22-32) is not modelled. It is a foreign filesystem call.
- Embeddings, text splitting, FAISS and the LLM answer chain are foreign libraries. Building and saving the index is one boolean parameter of `Ingest.IngestNotes`. The retrieved documents' sources are the input of `Display.ShowSources`.
- `st.cache_resource` and `load_retriever` are not modelled.
- JSON is abstracted to the states of `Registry.Store` and `Ingest.SnapshotStore`.
  - `external_files.json` is modelled as absent, zero bytes long, not valid JSON, or a list of objects that each have a `"path"` key. Other valid JSON is not modelled: a top-level object, string, number, boolean or null, or list elements that are not objects with `"path"`. In the source these shapes behave in three ways:
    - An empty object `{}` or an empty string `""` iterates as nothing. The detector (app.py:287) and ingestion (ingest.py:36) then act as on `[]`. Remove (app.py:40-42) succeeds and rewrites the file as `[]`. Add fails with `AttributeError` at `existing.append` (app.py:185), which app.py:198 reports.
    - A non-empty object or string iterates as its keys or characters. Indexing those with `"path"` raises `TypeError` (app.py:180, app.py:288, app.py:40, ingest.py:37). So does a list element that is a string, number, list or null. A list element that is an object without `"path"` raises `KeyError` at the same lines.
    - A number, boolean or null at the top level raises `TypeError` where it is iterated (app.py:180, app.py:287, app.py:40, ingest.py:36).
  - `vector_store/metadata.json` is modelled as absent, not valid JSON, or an object in which `local_files` and `external_files` are each present (as lists of strings) or absent. Other valid JSON is not modelled: a top-level list or scalar, or keys holding other values.
- `Detector.CheckForUpdates` catches only `FileNotFoundError`, `JSONDecodeError` and `KeyError` (app.py:310). The errors that escape it are not modelled: a `PermissionError` or `IsADirectoryError` when opening either JSON file, a `UnicodeDecodeError` inside `json.load`, and the `TypeError` of the unmodelled JSON shapes above.
- `Ingest.IngestNotes` catches only `FileNotFoundError` around the registry read (ingest.py:39). The errors that abort it there are not modelled: a `PermissionError` or `IsADirectoryError` when opening `external_files.json` (ingest.py:34), a `UnicodeDecodeError` inside `json.load` (ingest.py:35), and the `TypeError` or `KeyError` of the unmodelled JSON shapes above.
- `Registry.AddTransition` and `Registry.RemoveTransition` treat `Corrupt` as a file that decodes as text but is not valid JSON. Errors other than `JSONDecodeError` while loading are not modelled: a `PermissionError` or `IsADirectoryError` when opening `external_files.json` (app.py:170, app.py:38), and a `UnicodeDecodeError` inside `json.load` (app.py:172, app.py:39). In Add, app.py:173 does not catch them, so app.py:198 reports the error and nothing is written, where the model of a corrupt file resets it and adds the record. In Remove, app.py:47 reports them just as it reports a corrupt file.
- Write failures are not modelled. Every write of `external_files.json` and `vector_store/metadata.json` succeeds. In the model the generic `except Exception` branches (app.py:198-200, app.py:47-49) are reached only through the modelled read failures; in the source the unmodelled errors listed above reach them too.
- The filesystem is static during one call. Races between the walk, `getmtime` and the reads, and concurrent sessions writing the registry, are not modelled.
- `os.walk` traversal is not modelled: its result is an input sequence.
- Clock readings are not modelled: `datetime.now().isoformat()` and `int(time.time())` are parameters.
- Modification times are reals that are only compared for equality.
- `Upload.AsciiLower`: `str.lower()` is modelled for ASCII letters only, without Unicode case mapping.
- `Paths.Join`, `Paths.Basename`, `Paths.Dirname` and `Paths.SplitExt` follow POSIX `posixpath`. Byte paths and Windows paths are not modelled.
- `Registry.RegistryFile.Add` models the handler only from the input checks on (app.py:156-192). Clearing the text field and restoring it on error are UI state.

Five behaviours of the code are easy to miss. The model follows the code:

- `vector_store/metadata.json` lists every enumerated path, including files whose reading failed (ingest.py:70-72).
- The detector's modification-time test compares a captured time with a fresh read of the same file, so it never fires on its own (app.py:298, app.py:304). Editing a note in place does not trigger re-ingestion (`Detector.TouchIsNotDetected`).
- A zero-length `external_files.json` behaves differently in each place:
  - "Add" treats it as `[]` (app.py:171).
  - The detector's `json.load` fails, so it answers `true`.
  - Ingestion's `json.load` raises a `JSONDecodeError`, which is not caught (ingest.py:33-40), so the run aborts.
- Without `external_files.json`, ingestion succeeds with no external files, but the detector's `open` raises `FileNotFoundError` (app.py:285), so every query re-ingests (`Detector.MissingRegistryNeverSettles`).
- A walked `.txt` name that does not exist, such as a broken symbolic link in `notes/`, gets metadata with no `mtime` (ingest.py:15). Its read fails and it is skipped, but the snapshot still lists it (ingest.py:71). The detector's `getmtime` then raises `FileNotFoundError` (app.py:282), so every query re-ingests (`Detector.MissingNoteNeverSettles`).

## Findings

| source | as written | input that shows it | evidently intended | confidence | as-written member | corrected member |
|---|---|---|---|---|---|---|
| app.py:90-102 | The check accepts any name whose lower-cased form ends in `.txt`, but the saved name keeps `splitext`'s extension verbatim. | An upload named `Note.TXT` is saved as `notes/Note_<seconds>.TXT`. The walk, the detector and the ingester all filter on the case-sensitive `.txt`, so the note is never listed or ingested. An upload named `.txt` has no extension and is saved as `notes/.txt_<seconds>` (`Upload.DotTxtUploadIsInvisible`). | Every accepted upload is saved under a name ending in `.txt`. | medium, not executed | Upload.UpperCaseUploadIsInvisible | Upload.SaveTargetAsNote |
