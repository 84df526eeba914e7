/**
  The external-file registry: `external_files.json`, an ordered list of
  `{path, added_at}` records, added to by the sidebar's "Add" button
  (app.py:149-200) and filtered by the "stop tracking" confirmation
  (app.py:34-49). JSON itself is abstracted: the file is in one of four
  states.
*/
module Registry {
  import opened Wrappers
  import opened Paths
  import opened Sources

  /** One record; `addedAt` is the ISO text of `datetime.now()`, a parameter. */
  datatype Entry = Entry(path: string, addedAt: string)

  /**
    external_files.json: absent, zero bytes long, text that is not valid
    JSON, or a list of records.
  */
  datatype Store = Missing | Empty | Corrupt | Valid(entries: seq<Entry>)

  /** The messages of app.py:157, 159, 161 and 182. */
  datatype AddError = NoPath | NotTxt | PathNotFound | AlreadyExists

  datatype AddOutcome = Added(entry: Entry) | Rejected(error: AddError)

  /** What one press of "Add" reports, the store it leaves, and whether it reported corruption (app.py:174). */
  datatype AddStep = AddStep(outcome: AddOutcome, store: Store, corruptWarning: bool)

  datatype RemoveStep = RemoveStep(ok: bool, store: Store)

  /** `[entry["path"] for entry in existing]` (app.py:180). */
  function PathsOf(es: seq<Entry>): (r: seq<string>)
    ensures |r| == |es| && forall k :: 0 <= k < |es| ==> r[k] == es[k].path
  {
    seq(|es|, k requires 0 <= k < |es| => es[k].path)
  }

  /** No two records share a path. */
  predicate UniquePaths(es: seq<Entry>) {
    forall i, j :: 0 <= i < j < |es| ==> es[i].path != es[j].path
  }

  /** How many records carry `path`. */
  function Occurrences(es: seq<Entry>, path: string): nat {
    if es == [] then 0
    else Occurrences(es[..|es| - 1], path) + (if es[|es| - 1].path == path then 1 else 0)
  }

  /** The input checks of app.py:156-161, in their order: empty, `.txt` suffix, existence. */
  function Validate(path: string, fs: FileSystem): (r: Option<AddError>)
    ensures r == Some(NoPath) <==> path == []
    ensures r == Some(NotTxt) <==> path != [] && !HasTxtSuffix(path)
    ensures r == Some(PathNotFound) <==> HasTxtSuffix(path) && path !in fs
    ensures r == None <==> HasTxtSuffix(path) && path in fs
  {
    if path == [] then Some(NoPath)
    else if !HasTxtSuffix(path) then Some(NotTxt)
    else if path !in fs then Some(PathNotFound)
    else None
  }

  /**
    The list the add handler works on (app.py:165-177): a missing, empty or
    corrupt file gives the empty list.
  */
  function Existing(s: Store): seq<Entry> {
    if s.Valid? then s.entries else []
  }

  /** One press of "Add" with `path` typed in, at time `now` (app.py:156-192). */
  function AddTransition(s: Store, path: string, fs: FileSystem, now: string): (r: AddStep)
    ensures r.outcome.Added? <==> Validate(path, fs) == None && path !in PathsOf(Existing(s))
    ensures r.store != s ==> r.outcome.Added? || s.Corrupt?
    ensures r.corruptWarning <==> Validate(path, fs) == None && s.Corrupt?
  {
    match Validate(path, fs)
    case Some(error) => AddStep(Rejected(error), s, false)
    case None =>
      var existing := Existing(s);
      var reset := if s.Corrupt? then Valid([]) else s;
      if path in PathsOf(existing) then AddStep(Rejected(AlreadyExists), reset, s.Corrupt?)
      else AddStep(Added(Entry(path, now)), Valid(existing + [Entry(path, now)]), s.Corrupt?)
  }

  /** `[e for e in externals if e["path"] != path]` (app.py:40). */
  function Without(es: seq<Entry>, path: string): (r: seq<Entry>)
    ensures forall e :: e in r <==> e in es && e.path != path
    ensures |r| <= |es|
  {
    if es == [] then []
    else (if es[0].path != path then [es[0]] else []) + Without(es[1..], path)
  }

  /**
    Confirming "stop tracking" for `path` (app.py:35-49): a store that
    cannot be read as JSON fails the removal and is left alone.
  */
  function RemoveTransition(s: Store, path: string): (r: RemoveStep)
    ensures r.ok <==> s.Valid?
    ensures r.ok ==> r.store == Valid(Without(s.entries, path))
    ensures !r.ok ==> r.store == s
  {
    match s
    case Valid(es) => RemoveStep(true, Valid(Without(es, path)))
    case _ => RemoveStep(false, s)
  }

  // ---- properties of Add ----

  /** A rejected input (empty, not `.txt`, not existing) never touches the store. */
  lemma InvalidInputLeavesStore(s: Store, path: string, fs: FileSystem, now: string)
    requires Validate(path, fs).Some?
    ensures AddTransition(s, path, fs, now) == AddStep(Rejected(Validate(path, fs).value), s, false)
  {
  }

  /** A path already registered is reported as a duplicate and the list is not rewritten. */
  lemma DuplicateLeavesStore(es: seq<Entry>, path: string, fs: FileSystem, now: string)
    requires HasTxtSuffix(path) && path in fs && path in PathsOf(es)
    ensures AddTransition(Valid(es), path, fs, now) == AddStep(Rejected(AlreadyExists), Valid(es), false)
  {
  }

  /**
    A successful add appends exactly one record at the end: earlier records
    keep their content and order.
  */
  lemma AddAppendsOne(s: Store, path: string, fs: FileSystem, now: string)
    requires AddTransition(s, path, fs, now).outcome.Added?
    ensures var r := AddTransition(s, path, fs, now);
      r.outcome.entry == Entry(path, now) &&
      r.store.Valid? && |r.store.entries| == |Existing(s)| + 1 &&
      r.store.entries[..|Existing(s)|] == Existing(s) &&
      r.store.entries[|Existing(s)|] == Entry(path, now)
  {
  }

  /**
    A missing or zero-length file is read as the empty list and a corrupt
    one is reset to it, so a valid path is then always added as the only record.
  */
  lemma UnreadableStoreStartsFresh(s: Store, path: string, fs: FileSystem, now: string)
    requires !s.Valid? && HasTxtSuffix(path) && path in fs
    ensures AddTransition(s, path, fs, now) == AddStep(Added(Entry(path, now)), Valid([Entry(path, now)]), s.Corrupt?)
  {
  }

  lemma {:induction false} OccurrencesZero(es: seq<Entry>, path: string)
    requires path !in PathsOf(es)
    ensures Occurrences(es, path) == 0
  {
    if es != [] {
      var init := es[..|es| - 1];
      assert path !in PathsOf(init) by {
        forall k | 0 <= k < |init|
          ensures PathsOf(init)[k] != path
        {
          assert PathsOf(init)[k] == PathsOf(es)[k];
        }
      }
      OccurrencesZero(init, path);
      assert PathsOf(es)[|es| - 1] == es[|es| - 1].path;
    }
  }

  /** After a successful add the path is registered exactly once. */
  lemma AddedPathOccursOnce(s: Store, path: string, fs: FileSystem, now: string)
    requires AddTransition(s, path, fs, now).outcome.Added?
    ensures Occurrences(AddTransition(s, path, fs, now).store.entries, path) == 1
  {
    var old_ := Existing(s);
    var es := AddTransition(s, path, fs, now).store.entries;
    assert es[..|es| - 1] == old_;
    OccurrencesZero(old_, path);
  }

  /** Add keeps the registry free of duplicate paths. */
  lemma AddPreservesUniquePaths(s: Store, path: string, fs: FileSystem, now: string)
    requires UniquePaths(Existing(s))
    ensures var r := AddTransition(s, path, fs, now);
      r.store.Valid? ==> UniquePaths(r.store.entries)
  {
    var r := AddTransition(s, path, fs, now);
    if r.outcome.Added? {
      var old_ := Existing(s);
      var es := r.store.entries;
      forall i, j | 0 <= i < j < |es|
        ensures es[i].path != es[j].path
      {
        if j == |old_| {
          assert es[i] == old_[i];
          assert PathsOf(old_)[i] == old_[i].path;
        }
      }
    }
  }

  /** Every path Add stores ends in `.txt`, so a registry built by Add holds only note paths. */
  lemma AddKeepsTxtPaths(s: Store, path: string, fs: FileSystem, now: string)
    requires forall e :: e in Existing(s) ==> HasTxtSuffix(e.path)
    ensures forall e :: e in Existing(AddTransition(s, path, fs, now).store) ==> HasTxtSuffix(e.path)
  {
  }

  /** Adding the same path a second time fails with "Path already exists!" and changes nothing. */
  lemma SecondAddFails(s: Store, path: string, fs: FileSystem, now: string, later: string)
    requires AddTransition(s, path, fs, now).outcome.Added?
    ensures var s1 := AddTransition(s, path, fs, now).store;
      AddTransition(s1, path, fs, later) == AddStep(Rejected(AlreadyExists), s1, false)
  {
    var es := AddTransition(s, path, fs, now).store.entries;
    assert PathsOf(es)[|es| - 1] == path;
  }

  // ---- properties of Remove ----

  /** Filtering distributes over concatenation: survivors keep their order. */
  lemma {:induction false} WithoutAppend(a: seq<Entry>, b: seq<Entry>, path: string)
    ensures Without(a + b, path) == Without(a, path) + Without(b, path)
  {
    if a != [] {
      assert (a + b)[1..] == a[1..] + b;
      WithoutAppend(a[1..], b, path);
    } else {
      assert a + b == b;
    }
  }

  /** Removing a path that is not registered leaves the list as it was. */
  lemma {:induction false} WithoutAbsent(es: seq<Entry>, path: string)
    requires path !in PathsOf(es)
    ensures Without(es, path) == es
  {
    if es != [] {
      assert PathsOf(es)[0] == es[0].path;
      assert path !in PathsOf(es[1..]) by {
        forall k | 0 <= k < |es| - 1
          ensures PathsOf(es[1..])[k] != path
        {
          assert PathsOf(es[1..])[k] == PathsOf(es)[k + 1];
        }
      }
      WithoutAbsent(es[1..], path);
      assert es == [es[0]] + es[1..];
    }
  }

  /** Remove undoes a successful add of the same path. */
  lemma AddThenRemove(es: seq<Entry>, path: string, fs: FileSystem, now: string)
    requires AddTransition(Valid(es), path, fs, now).outcome.Added?
    ensures RemoveTransition(AddTransition(Valid(es), path, fs, now).store, path) == RemoveStep(true, Valid(es))
  {
    WithoutAppend(es, [Entry(path, now)], path);
    WithoutAbsent(es, path);
    assert Without([Entry(path, now)], path) == [];
  }

  /** Remove keeps the registry free of duplicate paths. */
  lemma {:induction false} WithoutPreservesUniquePaths(es: seq<Entry>, path: string)
    requires UniquePaths(es)
    ensures UniquePaths(Without(es, path))
  {
    if es != [] {
      WithoutPreservesUniquePaths(es[1..], path);
      var rest := Without(es[1..], path);
      if es[0].path != path {
        forall j | 0 <= j < |rest|
          ensures es[0].path != rest[j].path
        {
          assert rest[j] in es[1..];
          var k :| 0 <= k < |es[1..]| && es[1..][k] == rest[j];
          assert es[k + 1] == rest[j];
        }
        var r := [es[0]] + rest;
        forall i, j | 0 <= i < j < |r|
          ensures r[i].path != r[j].path
        {
          if i > 0 {
            assert r[i] == rest[i - 1] && r[j] == rest[j - 1];
          }
        }
      }
    }
  }

  /** external_files.json, read and rewritten whole by each operation. */
  class RegistryFile {
    var store: Store

    constructor (initial: Store)
      ensures store == initial
    {
      store := initial;
    }

    /**
      "Add": validate, load with fallbacks, reject duplicates, append one
      record and rewrite the list (app.py:149-192).
    */
    method Add(path: string, fs: FileSystem, now: string) returns (outcome: AddOutcome, corruptWarning: bool)
      modifies this
      ensures AddStep(outcome, store, corruptWarning) == AddTransition(old(store), path, fs, now)
    {
      corruptWarning := false;
      if path == [] {
        return Rejected(NoPath), false;
      } else if !HasTxtSuffix(path) {
        return Rejected(NotTxt), false;
      } else if path !in fs {
        return Rejected(PathNotFound), false;
      }
      var existing: seq<Entry> := [];
      match store {
        case Valid(es) =>
          existing := es;
        case Corrupt =>
          corruptWarning := true;
          store := Valid([]);
        case _ =>
      }
      var existingPaths := PathsOf(existing);
      if path in existingPaths {
        outcome := Rejected(AlreadyExists);
      } else {
        existing := existing + [Entry(path, now)];
        store := Valid(existing);
        outcome := Added(Entry(path, now));
      }
    }

    /** "Stop tracking": filter the path out and rewrite the list (app.py:35-49). */
    method Remove(path: string) returns (ok: bool)
      modifies this
      ensures RemoveStep(ok, store) == RemoveTransition(old(store), path)
    {
      match store {
        case Valid(externals) =>
          var updated := Without(externals, path);
          store := Valid(updated);
          ok := true;
        case _ =>
          ok := false;
      }
    }
  }
}
