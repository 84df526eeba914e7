/**
  The filesystem as the notes app sees it during one call, and the local
  note enumeration shared by the sidebar, the change detector and the
  ingester: every `.txt` file reported by `os.walk("notes")`, as
  `os.path.join(root, file)`, in walk order.
*/
module Sources {
  import opened Wrappers
  import opened Paths

  /** A modification time; only compared for equality. */
  type Mtime = real

  /**
    One existing path: its modification time and its text, or None when
    opening or decoding it as UTF-8 fails.
  */
  datatype FileInfo = FileInfo(mtime: Mtime, content: Option<string>)

  /** Existing paths (`os.path.exists`) and what they hold. */
  type FileSystem = map<string, FileInfo>

  /** One step of `os.walk`: a directory and the names of the files in it. */
  datatype WalkDir = WalkDir(root: string, files: seq<string>)

  /** The `.txt` files of one directory, joined to its root, in listing order. */
  function TxtPathsIn(root: string, files: seq<string>): (r: seq<string>)
    ensures forall p :: p in r ==> HasTxtSuffix(p)
  {
    if files == [] then []
    else
      var f := files[|files| - 1];
      JoinKeepsTxt(root, f);
      TxtPathsIn(root, files[..|files| - 1]) + (if HasTxtSuffix(f) then [Join(root, f)] else [])
  }

  /** Exactly the `.txt` names of the directory are enumerated. */
  lemma {:induction false} TxtPathsInExactly(root: string, files: seq<string>, p: string)
    ensures p in TxtPathsIn(root, files) <==> exists f :: f in files && HasTxtSuffix(f) && p == Join(root, f)
  {
    if files != [] {
      var init := files[..|files| - 1];
      TxtPathsInExactly(root, init, p);
      assert forall g :: g in files <==> g in init || g == files[|files| - 1];
    }
  }

  /** The local notes of a walk, directory by directory (app.py:278-282, ingest.py:25-29). */
  function LocalPaths(walk: seq<WalkDir>): (r: seq<string>)
    ensures forall p :: p in r ==> HasTxtSuffix(p)
  {
    if walk == [] then []
    else LocalPaths(walk[..|walk| - 1]) + TxtPathsIn(walk[|walk| - 1].root, walk[|walk| - 1].files)
  }

  lemma LocalPathsSnoc(walk: seq<WalkDir>, d: WalkDir)
    ensures LocalPaths(walk + [d]) == LocalPaths(walk) + TxtPathsIn(d.root, d.files)
  {
    assert (walk + [d])[..|walk|] == walk;
  }

  lemma LocalPathsAppendStep(a: seq<WalkDir>, init: seq<WalkDir>, last: WalkDir)
    requires LocalPaths(a + init) == LocalPaths(a) + LocalPaths(init)
    ensures LocalPaths((a + init) + [last]) == LocalPaths(a) + LocalPaths(init + [last])
  {
    LocalPathsSnoc(a + init, last);
    LocalPathsSnoc(init, last);
    ConcatAssoc(LocalPaths(a), LocalPaths(init), TxtPathsIn(last.root, last.files));
  }

  /** Associativity on plain variables, so the step above does not unfold `LocalPaths` inside it. */
  lemma ConcatAssoc(x: seq<string>, y: seq<string>, z: seq<string>)
    ensures (x + y) + z == x + (y + z)
  {
  }

  /** Walking two runs of directories enumerates the first run's notes, then the second's, each in walk order. */
  lemma {:induction false} LocalPathsAppend(a: seq<WalkDir>, b: seq<WalkDir>)
    ensures LocalPaths(a + b) == LocalPaths(a) + LocalPaths(b)
  {
    if b == [] {
      assert a + b == a;
    } else {
      var init, last := b[..|b| - 1], b[|b| - 1];
      assert b == init + [last];
      assert a + b == (a + init) + [last];
      LocalPathsAppend(a, init);
      LocalPathsAppendStep(a, init, last);
    }
  }

  /** Listing two runs of file names enumerates the first run's notes, then the second's, in listing order. */
  lemma {:induction false} TxtPathsInAppend(root: string, a: seq<string>, b: seq<string>)
    ensures TxtPathsIn(root, a + b) == TxtPathsIn(root, a) + TxtPathsIn(root, b)
  {
    if b == [] {
      assert a + b == a;
    } else {
      var init := b[..|b| - 1];
      assert (a + b)[..|a + b| - 1] == a + init;
      TxtPathsInAppend(root, a, init);
    }
  }

  /** A note found in a walk is found in every longer walk. */
  lemma {:induction false} LocalPathsGrow(walk: seq<WalkDir>, i: nat, p: string)
    requires i <= |walk| && p in LocalPaths(walk[..i])
    ensures p in LocalPaths(walk)
  {
    if i < |walk| {
      var w := walk[..|walk| - 1];
      assert w[..i] == walk[..i];
      LocalPathsGrow(w, i, p);
    } else {
      assert walk[..i] == walk;
    }
  }

  /** `p` is the `.txt` file `f` of the `i`-th directory of the walk. */
  predicate FoundAt(walk: seq<WalkDir>, i: int, f: string, p: string) {
    0 <= i < |walk| && f in walk[i].files && HasTxtSuffix(f) && p == Join(walk[i].root, f)
  }

  /** Every enumerated note is a `.txt` file of some directory of the walk. */
  lemma {:induction false} LocalPathsSound(walk: seq<WalkDir>, p: string)
    requires p in LocalPaths(walk)
    ensures exists i, f :: FoundAt(walk, i, f, p)
  {
    var w := walk[..|walk| - 1];
    var last := walk[|walk| - 1];
    if p in LocalPaths(w) {
      LocalPathsSound(w, p);
      var i, f :| FoundAt(w, i, f, p);
      assert FoundAt(walk, i, f, p);
    } else {
      TxtPathsInExactly(last.root, last.files, p);
      var f :| f in last.files && HasTxtSuffix(f) && p == Join(last.root, f);
      assert FoundAt(walk, |walk| - 1, f, p);
    }
  }

  /** Every `.txt` file of every directory of the walk is enumerated. */
  lemma {:induction false} LocalPathsComplete(walk: seq<WalkDir>, i: int, f: string, p: string)
    requires FoundAt(walk, i, f, p)
    ensures p in LocalPaths(walk)
  {
    var w := walk[..|walk| - 1];
    var last := walk[|walk| - 1];
    if i < |w| {
      assert FoundAt(w, i, f, p);
      LocalPathsComplete(w, i, f, p);
    } else {
      TxtPathsInExactly(last.root, last.files, p);
    }
  }

  /** Exactly the `.txt` files of the walk are enumerated. */
  lemma LocalPathsExactly(walk: seq<WalkDir>, p: string)
    ensures p in LocalPaths(walk) <==> exists i, f :: FoundAt(walk, i, f, p)
  {
    if p in LocalPaths(walk) {
      LocalPathsSound(walk, p);
    }
    if exists i, f :: FoundAt(walk, i, f, p) {
      var i, f :| FoundAt(walk, i, f, p);
      LocalPathsComplete(walk, i, f, p);
    }
  }
}
