/**
  The name under which an uploaded note is saved (app.py:87-103): uploads
  whose name, lower-cased, ends in `.txt` are written to
  `notes/<base>_<seconds><ext>`, where `<base>` and `<ext>` come from
  `os.path.splitext` of the uploaded name and `<seconds>` is the integer
  wall-clock time, a parameter here.
*/
module Upload {
  import opened Paths
  import opened Sources

  const NotesDir := "notes"

  /** `str.lower()` restricted to ASCII letters. */
  function AsciiLower(s: string): (r: string)
    ensures |r| == |s|
  {
    seq(|s|, k requires 0 <= k < |s| => if 'A' <= s[k] <= 'Z' then (s[k] as int + 32) as char else s[k])
  }

  datatype UploadOutcome = Saved(finalName: string, savePath: string) | NotTxt

  /** `f"{base_name}_{int(time.time())}{extension}"` (app.py:100-102). */
  function UniqueName(name: string, seconds: nat): (r: string)
    ensures |r| == |name| + 1 + |NatToDecimal(seconds)|
  {
    SplitExt(name).0 + "_" + NatToDecimal(seconds) + SplitExt(name).1
  }

  /** The check of app.py:90 and the target path of app.py:103. */
  function SaveTarget(name: string, seconds: nat): (r: UploadOutcome)
    ensures r.Saved? <==> EndsWith(AsciiLower(name), ".txt")
    ensures r.Saved? ==> r.finalName == UniqueName(name, seconds)
    ensures r.Saved? ==> r.savePath == Join(NotesDir, r.finalName) && r.finalName != name
  {
    if !EndsWith(AsciiLower(name), ".txt") then NotTxt
    else
      var finalName := UniqueName(name, seconds);
      Saved(finalName, Join(NotesDir, finalName))
  }

  /** Appending a tail without dots or slashes to a name without extension adds no extension. */
  lemma SplitExtAppendPlain(p: string, m: string)
    requires SplitExt(p).1 == [] && '/' !in m && '.' !in m
    ensures SplitExt(p + m) == (p + m, [])
  {
    var q := p + m;
    var sep, dot := RFind(p, '/'), RFind(p, '.');
    RFindAppend(p, m, '/');
    RFindAppend(p, m, '.');
    if sep < dot {
      assert forall k :: sep < k < dot ==> q[k] == p[k];
      assert !(exists k :: sep < k < dot && p[k] != '.');
      assert !(exists k :: sep < k < dot && q[k] != '.');
    }
  }

  /** Inserting a plain tail that starts with a non-dot before an extension keeps that extension. */
  lemma SplitExtInsertPlain(b: string, m: string, e: string)
    requires SplitExt(b + e) == (b, e) && e != []
    requires '/' !in m && '.' !in m && m != []
    ensures SplitExt(b + m + e) == (b + m, e)
  {
    var q := b + m + e;
    assert q == b + (m + e);
    assert '/' !in m + e;
    RFindAppend(b, m + e, '/');
    RFindAppend(b, e, '/');
    var dotQ := |b| + |m|;
    assert q[dotQ] == e[0] == '.';
    forall k | dotQ < k < |q|
      ensures q[k] != '.'
    {
      assert q[k] == e[1..][k - dotQ - 1];
    }
    RFindUnique(q, '.', dotQ);
    assert q[|b|] == m[0] != '.';
    assert q[..dotQ] == b + m && q[dotQ..] == e;
  }

  /**
    The saved name splits into the uploaded base with the timestamp appended
    and the uploaded extension, unchanged.
  */
  lemma UniqueNameSplits(name: string, seconds: nat)
    ensures SplitExt(UniqueName(name, seconds)) == (SplitExt(name).0 + "_" + NatToDecimal(seconds), SplitExt(name).1)
  {
    var b, e := SplitExt(name).0, SplitExt(name).1;
    var digits := NatToDecimal(seconds);
    var m := "_" + digits;
    assert '/' !in m && '.' !in m by {
      forall k | 0 <= k < |m|
        ensures m[k] != '/' && m[k] != '.'
      {
        if k > 0 { assert m[k] == digits[k - 1]; }
      }
    }
    assert UniqueName(name, seconds) == b + m + e;
    if e == [] {
      assert b == name && b + m + e == name + m;
      assert b + "_" + digits == b + m;
      SplitExtAppendPlain(name, m);
    } else {
      assert name == b + e;
      SplitExtInsertPlain(b, m, e);
    }
  }

  /** Uploads of one name at different seconds get different names. */
  lemma UniqueNameInjective(name: string, s1: nat, s2: nat)
    requires UniqueName(name, s1) == UniqueName(name, s2)
    ensures s1 == s2
  {
    var b, e := SplitExt(name).0, SplitExt(name).1;
    var d1, d2 := NatToDecimal(s1), NatToDecimal(s2);
    var q1, q2 := UniqueName(name, s1), UniqueName(name, s2);
    assert |d1| == |d2|;
    assert q1 == b + "_" + d1 + e && q2 == b + "_" + d2 + e;
    assert q1[|b| + 1..|b| + 1 + |d1|] == d1;
    assert q2[|b| + 1..|b| + 1 + |d2|] == d2;
    DecimalInjective(s1, s2);
  }

  /** A name ending in ".txt" in any case has that ending as its extension, if it has one. */
  lemma TxtNameExtension(name: string)
    requires EndsWith(AsciiLower(name), ".txt") && SplitExt(name).1 != []
    ensures SplitExt(name).1 == name[|name| - 4..]
  {
    var n := |name|;
    var lower := AsciiLower(name);
    assert lower[n - 4..] == ".txt";
    forall k | n - 4 < k < n
      ensures name[k] != '.'
    {
      assert lower[k] == ".txt"[k - (n - 4)];
    }
    assert lower[n - 4] == '.';
    RFindUnique(name, '.', n - 4);
  }

  /**
    The saved file name ends in ".txt" exactly when `splitext` finds the
    lower-case extension ".txt" in an accepted upload's name.
  */
  lemma UniqueNameIsNoteIff(name: string, seconds: nat)
    requires EndsWith(AsciiLower(name), ".txt")
    ensures HasTxtSuffix(UniqueName(name, seconds)) <==> SplitExt(name).1 == ".txt"
  {
    var e := SplitExt(name).1;
    var digits := NatToDecimal(seconds);
    var f := UniqueName(name, seconds);
    assert f == SplitExt(name).0 + "_" + digits + e;
    if e == [] {
      assert f[|f| - 1] == digits[|digits| - 1];
    } else {
      TxtNameExtension(name);
      assert f[|f| - 4..] == e;
    }
  }

  /**
    As written, an accepted upload is saved under a ".txt" name exactly when
    `splitext` finds the lower-case extension ".txt"; "Note.TXT" keeps ".TXT"
    and ".txt" (only leading dots) gets no extension at all.
  */
  lemma SavedNameIsNoteIff(name: string, seconds: nat)
    requires SaveTarget(name, seconds).Saved?
    ensures HasTxtSuffix(SaveTarget(name, seconds).savePath) <==> SplitExt(name).1 == ".txt"
  {
    var r := SaveTarget(name, seconds);
    UniqueNameIsNoteIff(name, seconds);
    var f, path := r.finalName, r.savePath;
    assert EndsWith(path, f);
    assert |f| >= |SplitExt(name).0| + |SplitExt(name).1| == |name| >= 4;
    EndsWithTail(path, f, ".txt");
  }

  /** "Note.TXT" is accepted, but `splitext` keeps ".TXT", so the saved file is not a note. */
  lemma UpperCaseUploadIsInvisible(name: string, seconds: nat)
    requires name == "Note.TXT"
    ensures SaveTarget(name, seconds).Saved?
    ensures !HasTxtSuffix(SaveTarget(name, seconds).savePath)
  {
    assert AsciiLower(name)[4..] == ".txt";
    RFindUnique(name, '/', -1);
    RFindUnique(name, '.', 4);
    assert -1 < 0 < 4 && name[0] != '.';
    assert name[4..] == ".TXT";
    assert SplitExt(name).1 == ".TXT";
    SavedNameIsNoteIff(name, seconds);
  }

  /** ".txt" is accepted, but `splitext` sees only a base, so the saved name gets no extension. */
  lemma DotTxtUploadIsInvisible(name: string, seconds: nat)
    requires name == ".txt"
    ensures SplitExt(name) == (name, [])
    ensures SaveTarget(name, seconds).Saved?
    ensures !HasTxtSuffix(SaveTarget(name, seconds).savePath)
  {
    assert AsciiLower(name)[0..] == ".txt";
    RFindUnique(name, '/', -1);
    RFindUnique(name, '.', 0);
    SavedNameIsNoteIff(name, seconds);
  }

  /**
    The evident intent: the saved name keeps the uploaded name up to its
    four-character ending and ends in ".txt" exactly, whatever the case of
    the uploaded extension.
  */
  function SaveTargetAsNote(name: string, seconds: nat): (r: UploadOutcome)
    ensures r.Saved? <==> EndsWith(AsciiLower(name), ".txt")
    ensures r.Saved? ==> r.savePath == Join(NotesDir, r.finalName) && HasTxtSuffix(r.finalName)
    ensures r.Saved? ==> |name| - 4 < |r.finalName| && r.finalName[..|name| - 4] == name[..|name| - 4]
  {
    if !EndsWith(AsciiLower(name), ".txt") then NotTxt
    else
      var finalName := name[..|name| - 4] + "_" + NatToDecimal(seconds) + ".txt";
      assert finalName[|finalName| - 4..] == ".txt";
      Saved(finalName, Join(NotesDir, finalName))
  }

  /**
    Every upload accepted by the corrected naming is enumerated as a local
    note by any walk that lists it in the notes directory.
  */
  lemma AcceptedUploadIsEnumerated(name: string, seconds: nat, walk: seq<WalkDir>, i: nat)
    requires SaveTargetAsNote(name, seconds).Saved?
    requires i < |walk| && walk[i].root == NotesDir && SaveTargetAsNote(name, seconds).finalName in walk[i].files
    ensures SaveTargetAsNote(name, seconds).savePath in LocalPaths(walk)
  {
    var r := SaveTargetAsNote(name, seconds);
    assert FoundAt(walk, i, r.finalName, r.savePath);
    LocalPathsExactly(walk, r.savePath);
  }
}
