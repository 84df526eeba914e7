/**
  The "Source Files" list under an answer (app.py:337-346): one line per
  file name (basename) of the retrieved documents' `source` paths, in
  order of first occurrence, with the directory of that first document.
*/
module Display {
  import opened Paths

  /** One displayed line: the file name and, as a caption, its directory. */
  datatype SourceLine = SourceLine(file: string, dir: string)

  /** The candidate line of every retrieved document, in retrieval order. */
  function Lines(sources: seq<string>): (lines: seq<SourceLine>)
    ensures |lines| == |sources|
    ensures forall k :: 0 <= k < |sources| ==> lines[k] == SourceLine(Basename(sources[k]), Dirname(sources[k]))
  {
    if sources == [] then []
    else Lines(sources[..|sources| - 1]) + [SourceLine(Basename(sources[|sources| - 1]), Dirname(sources[|sources| - 1]))]
  }

  /** The file names of some lines. */
  function Files(lines: seq<SourceLine>): set<string> {
    set k | 0 <= k < |lines| :: lines[k].file
  }

  /**
    The reference definition: walking the lines in order, a line is kept
    when no earlier line has its file name.
  */
  function FirstOccurrences(lines: seq<SourceLine>): (shown: seq<SourceLine>)
    ensures |shown| <= |lines|
  {
    if lines == [] then []
    else
      var init := lines[..|lines| - 1];
      var line := lines[|lines| - 1];
      if line.file in Files(init) then FirstOccurrences(init) else FirstOccurrences(init) + [line]
  }

  lemma FilesSnoc(lines: seq<SourceLine>, line: SourceLine)
    ensures Files(lines + [line]) == Files(lines) + {line.file}
  {
    var all := lines + [line];
    forall n | n in Files(all)
      ensures n in Files(lines) + {line.file}
    {
      var k :| 0 <= k < |all| && all[k].file == n;
      if k < |lines| { assert lines[k] == all[k]; }
    }
    forall n | n in Files(lines)
      ensures n in Files(all)
    {
      var k :| 0 <= k < |lines| && lines[k].file == n;
      assert all[k] == lines[k];
    }
    assert all[|lines|] == line;
  }

  /** Every file name occurs on exactly one shown line. */
  lemma {:induction false} FirstOccurrencesNames(lines: seq<SourceLine>)
    ensures Files(FirstOccurrences(lines)) == Files(lines)
    ensures var shown := FirstOccurrences(lines);
      forall i, j :: 0 <= i < j < |shown| ==> shown[i].file != shown[j].file
  {
    if lines != [] {
      var init := lines[..|lines| - 1];
      var line := lines[|lines| - 1];
      assert lines == init + [line];
      FilesSnoc(init, line);
      FirstOccurrencesNames(init);
      var prev := FirstOccurrences(init);
      if line.file !in Files(init) {
        var shown := prev + [line];
        FilesSnoc(prev, line);
        forall i, j | 0 <= i < j < |shown|
          ensures shown[i].file != shown[j].file
        {
          assert shown[i] == prev[i];
          if j == |prev| {
            assert prev[i].file in Files(prev);
          } else {
            assert shown[j] == prev[j];
          }
        }
      }
    }
  }

  /** Each shown line is the first line with its file name. */
  lemma {:induction false} FirstOccurrencesAreFirst(lines: seq<SourceLine>, k: nat)
    requires k < |FirstOccurrences(lines)|
    ensures exists i :: 0 <= i < |lines| && FirstOccurrences(lines)[k] == lines[i] &&
                        lines[i].file !in Files(lines[..i])
  {
    var init := lines[..|lines| - 1];
    var prev := FirstOccurrences(init);
    if k < |prev| {
      FirstOccurrencesAreFirst(init, k);
      var i :| 0 <= i < |init| && prev[k] == init[i] && init[i].file !in Files(init[..i]);
      assert init[..i] == lines[..i] && init[i] == lines[i];
      assert FirstOccurrences(lines)[k] == prev[k];
    } else {
      assert lines[..|lines| - 1] == init;
    }
  }

  /** More documents only append lines: lines appear in order of first occurrence. */
  lemma {:induction false} FirstOccurrencesPrefix(lines: seq<SourceLine>, i: nat)
    requires i <= |lines|
    ensures var before := FirstOccurrences(lines[..i]);
      |before| <= |FirstOccurrences(lines)| && FirstOccurrences(lines)[..|before|] == before
  {
    if i < |lines| {
      var init := lines[..|lines| - 1];
      assert init[..i] == lines[..i];
      FirstOccurrencesPrefix(init, i);
    } else {
      assert lines[..i] == lines;
    }
  }

  /** The display loop of app.py:338-346, with `seen_sources` as a set. */
  method ShowSources(sources: seq<string>) returns (shown: seq<SourceLine>)
    ensures shown == FirstOccurrences(Lines(sources))
  {
    var seen: set<string> := {};
    shown := [];
    ghost var prior: seq<SourceLine> := [];
    for i := 0 to |sources|
      invariant prior == Lines(sources[..i])
      invariant shown == FirstOccurrences(prior)
      invariant seen == Files(prior)
    {
      var sourcePath := sources[i];
      var sourceFile := Basename(sourcePath);
      var line := SourceLine(sourceFile, Dirname(sourcePath));
      assert sources[..i + 1][..i] == sources[..i];
      FilesSnoc(prior, line);
      assert (prior + [line])[..|prior|] == prior;
      if sourceFile !in seen {
        shown := shown + [line];
        seen := seen + {sourceFile};
      }
      prior := prior + [line];
    }
    assert sources[..|sources|] == sources;
  }
}
