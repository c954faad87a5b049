/** What the scanner makes of a printed diff, whatever its names. */
module DiffRoundTrip {
  import opened Options
  import opened Lines
  import opened DiffScan
  import opened DiffRead

  // ---------- what should be reported, hunk by hunk ----------

  lemma {:induction false} ReportConcat(det: Detector, path: string, a: seq<NewLine>, b: seq<NewLine>, at: nat)
    ensures Report(det, path, a + b, at) == Report(det, path, a, at) + Report(det, path, b, at + |a|)
  {
    if a == [] {
      assert a + b == b;
    } else {
      assert (a + b)[1..] == a[1..] + b;
      ReportConcat(det, path, a[1..], b, at + 1);
    }
  }

  lemma {:induction false} ReportKept(det: Detector, path: string, lines: seq<string>, at: nat)
    ensures Report(det, path, KeptLines(lines), at) == []
  {
    if lines != [] {
      assert KeptLines(lines)[1..] == KeptLines(lines[1..]);
      ReportKept(det, path, lines[1..], at + 1);
    }
  }

  /** One hunk's share of the report, then the rest. */
  lemma ReportHunk(det: Detector, path: string, hs: seq<Hunk>, tail: seq<string>, at: nat)
    requires hs != []
    ensures Report(det, path, NewFile(hs, tail), at)
         == Report(det, path, FreshLines(hs[0].added), at + |hs[0].keep|)
          + Report(det, path, NewFile(hs[1..], tail), at + |hs[0].keep| + |hs[0].added|)
  {
    var kept, added, rest := KeptLines(hs[0].keep), FreshLines(hs[0].added), NewFile(hs[1..], tail);
    ReportKept(det, path, hs[0].keep, at);
    ReportConcat(det, path, kept, added + rest, at);
    ReportConcat(det, path, added, rest, at + |kept|);
  }

  /** A file whose hunks add nothing has nothing to report. */
  lemma {:induction false} ReportNothing(det: Detector, path: string, hs: seq<Hunk>, tail: seq<string>, at: nat)
    requires AddsNothing(hs)
    ensures Report(det, path, NewFile(hs, tail), at) == []
  {
    if hs == [] {
      ReportKept(det, path, tail, at);
    } else {
      ReportHunk(det, path, hs, tail, at);
      ReportNothing(det, path, hs[1..], tail, at + |hs[0].keep| + |hs[0].added|);
    }
  }

  // ---------- scanning stretches of lines ----------

  lemma {:induction false} ScanOthers(det: Detector, st: Scan, k: nat)
    ensures ScanKinds(det, st, Repeat(k)) == Some(st)
  {
    if k > 0 {
      assert Repeat(k)[1..] == Repeat(k - 1);
      ScanOthers(det, st, k - 1);
    }
  }

  lemma {:induction false} ScanAdded(det: Detector, st: Scan, added: seq<string>)
    requires st.path.Some? && st.line.Some?
    ensures ScanKinds(det, st, PlusKinds(added))
         == Some(Scan(st.path, Some(st.line.value + |added|),
                      st.findings + Report(det, st.path.value, FreshLines(added), st.line.value)))
    decreases |added|
  {
    if added == [] {
      assert st.findings + [] == st.findings;
    } else {
      assert PlusKinds(added)[1..] == PlusKinds(added[1..]) && FreshLines(added)[1..] == FreshLines(added[1..]);
      var path, line := st.path.value, st.line.value;
      var hit, rest := Hit(det, path, line, added[0]), Report(det, path, FreshLines(added[1..]), line + 1);
      ScanAdded(det, Scan(st.path, Some(line + 1), st.findings + hit), added[1..]);
      assert Report(det, path, FreshLines(added), line) == hit + rest;
      assert st.findings + hit + rest == st.findings + (hit + rest);
    }
  }

  /** What a stretch of a diff does to the scanner: the path stays, and the findings grow by `report`. */
  ghost predicate Adds(det: Detector, st: Scan, kinds: seq<Kind>, report: seq<Finding>) {
    match ScanKinds(det, st, kinds)
    case None => false
    case Some(next) => next.path == st.path && next.findings == st.findings + report
  }

  /** Without a current path, added lines are passed over. */
  lemma {:induction false} ScanPassed(det: Detector, st: Scan, added: seq<string>)
    requires st.path.None?
    ensures ScanKinds(det, st, PlusKinds(added)) == Some(st)
    decreases |added|
  {
    if added != [] {
      assert PlusKinds(added)[1..] == PlusKinds(added[1..]);
      ScanPassed(det, st, added[1..]);
    }
  }

  lemma ScanHunk(det: Detector, st: Scan, h: Hunk, n: nat)
    ensures Adds(det, st, HunkKinds(h, n),
                 if st.path.None? then [] else Report(det, st.path.value, FreshLines(h.added), n + |h.keep| + 1))
  {
    var header := [HunkAt(Some(At(n + |h.keep|, |h.added|)))];
    var removed, added, mark := Repeat(|h.removed| + Marks(h.oldMark)), PlusKinds(h.added), Repeat(Marks(h.newMark));
    var st1 := st.(line := Some(At(n + |h.keep|, |h.added|)));
    ScanConcat(det, st, header, removed + (added + mark));
    assert ScanKinds(det, st, header) == Some(st1);
    ScanConcat(det, st1, removed, added + mark);
    ScanOthers(det, st1, |h.removed| + Marks(h.oldMark));
    ScanConcat(det, st1, added, mark);
    if st.path.None? {
      ScanPassed(det, st1, h.added);
    } else {
      ScanAdded(det, st1, h.added);
    }
    ScanOthers(det, ScanKinds(det, st1, added).value, Marks(h.newMark));
  }

  lemma AddsConcat(det: Detector, st: Scan, a: seq<Kind>, r: seq<Finding>, b: seq<Kind>, s: seq<Finding>)
    requires Adds(det, st, a, r)
    requires Adds(det, ScanKinds(det, st, a).value, b, s)
    ensures Adds(det, st, a + b, r + s)
  {
    ScanConcat(det, st, a, b);
  }

  /** Under a current path, the hunks of a file add that path's report. */
  lemma {:induction false} ScanHunks(det: Detector, st: Scan, hs: seq<Hunk>, tail: seq<string>, n: nat)
    requires st.path.Some?
    ensures Adds(det, st, HunksKinds(hs, n), Report(det, st.path.value, NewFile(hs, tail), n + 1))
    decreases |hs|
  {
    hide HunkKinds, Report, NewFile, FreshLines, Advance;
    var path := st.path.value;
    if hs == [] {
      ReportTail(det, path, tail, n + 1);
    } else {
      var h, n' := hs[0], n + |hs[0].keep| + |hs[0].added|;
      ScanHunk(det, st, h, n);
      ScanHunks(det, ScanKinds(det, st, HunkKinds(h, n)).value, hs[1..], tail, n');
      ReportHunk(det, path, hs, tail, n + 1);
      AddsConcat(det, st, HunkKinds(h, n), Report(det, path, FreshLines(h.added), n + |h.keep| + 1),
                 HunksKinds(hs[1..], n'), Report(det, path, NewFile(hs[1..], tail), n' + 1));
    }
  }

  lemma ReportTail(det: Detector, path: string, tail: seq<string>, at: nat)
    ensures Report(det, path, NewFile([], tail), at) == []
  {
    ReportKept(det, path, tail, at);
  }

  /** Without a current path, hunks leave the findings alone. */
  lemma {:induction false} ScanHunksQuietly(det: Detector, st: Scan, hs: seq<Hunk>, n: nat)
    requires st.path.None?
    ensures Adds(det, st, HunksKinds(hs, n), [])
    decreases |hs|
  {
    hide HunkKinds;
    if hs != [] {
      var h, n' := hs[0], n + |hs[0].keep| + |hs[0].added|;
      ScanHunk(det, st, h, n);
      ScanHunksQuietly(det, ScanKinds(det, st, HunkKinds(h, n)).value, hs[1..], n');
      AddsConcat(det, st, HunkKinds(h, n), [], HunksKinds(hs[1..], n'), []);
    }
  }

  lemma {:induction false} EmptyFileAddsNothing(hs: seq<Hunk>, tail: seq<string>)
    requires NewFile(hs, tail) == []
    ensures AddsNothing(hs)
  {
    if hs != [] {
      assert |FreshLines(hs[0].added)| == |hs[0].added|;
      EmptyFileAddsNothing(hs[1..], tail);
    }
  }

  // ---------- files ----------

  /** What the scanner reports about a file: its added lines, under the path the scanner believes in. */
  function FileScanned(det: Detector, f: FileDiff, path: Option<string>): seq<Finding> {
    if f.Text? && path.Some? then Report(det, path.value, NewFile(f.hunks, f.tail), 1) else []
  }

  function Scanned(det: Detector, files: seq<FileDiff>, path: Option<string>): seq<Finding> {
    if files == [] then []
    else FileScanned(det, files[0], After(path, files[0])) + Scanned(det, files[1..], After(path, files[0]))
  }

  lemma ScanLabel(det: Detector, st: Scan, f: FileDiff)
    requires f.Text?
    ensures ScanKinds(det, st, [LabelKind(f)]) == Some(st.(path := After(st.path, f)))
  {
  }

  lemma ScanTextFile(det: Detector, st: Scan, f: FileDiff)
    requires f.Text? && st.path == After(st.path, f)
    ensures Adds(det, st, HunksKinds(f.hunks, 0), FileScanned(det, f, st.path))
  {
    if st.path.Some? {
      ScanHunks(det, st, f.hunks, f.tail, 0);
    } else {
      ScanHunksQuietly(det, st, f.hunks, 0);
    }
  }

  lemma AfterTwice(path: Option<string>, f: FileDiff)
    ensures After(After(path, f), f) == After(path, f)
  {
  }

  lemma ScanFile(det: Detector, st: Scan, f: FileDiff)
    ensures
      var scanned := ScanKinds(det, st, FileKinds(f));
      && scanned.Some?
      && scanned.value.path == After(st.path, f)
      && scanned.value.findings == st.findings + FileScanned(det, f, After(st.path, f))
  {
    hide Repeat, HunksKinds, LabelKind, Report, After;
    var preamble := Repeat(|f.preamble|);
    ScanOthers(det, st, |f.preamble|);
    if f.Text? {
      var labelKind, hunks := [LabelKind(f)], HunksKinds(f.hunks, 0);
      var st1 := st.(path := After(st.path, f));
      ScanConcat(det, st, preamble, labelKind + hunks);
      ScanConcat(det, st, labelKind, hunks);
      ScanLabel(det, st, f);
      AfterTwice(st.path, f);
      ScanTextFile(det, st1, f);
    } else {
      assert preamble + [] == preamble;
      TextlessKeepsPath(st.path, f);
    }
  }

  lemma TextlessKeepsPath(path: Option<string>, f: FileDiff)
    requires f.Textless?
    ensures After(path, f) == path
  {
  }

  lemma {:induction false} ScanFiles(det: Detector, st: Scan, files: seq<FileDiff>)
    ensures
      var scanned := ScanKinds(det, st, DiffKinds(files));
      scanned.Some? && scanned.value.findings == st.findings + Scanned(det, files, st.path)
    decreases |files|
  {
    hide FileKinds, FileScanned, After;
    if files != [] {
      ScanFile(det, st, files[0]);
      ScanConcat(det, st, FileKinds(files[0]), DiffKinds(files[1..]));
      ScanFiles(det, ScanKinds(det, st, FileKinds(files[0])).value, files[1..]);
    }
  }

  // ---------- lines in a text ----------

  /** A written line is read as it is, and whatever `splitlines` cuts off it says nothing to the scanner. */
  ghost predicate Quiet(classify: string -> Kind, line: string, end: string) {
    && SplitLines(line + end) != []
    && Kinds(classify, SplitLines(line + end)) == [classify(line)] + Repeat(|SplitLines(line + end)| - 1)
  }

  lemma WholeLineQuiet(classify: string -> Kind, line: string, end: string)
    requires SeparatorFree(line) && IsLineEnd(end)
    ensures Quiet(classify, line, end)
  {
    SplitFirst(line, end, "");
    assert line + (end + "") == line + end;
    assert SplitLines(line + end) == [line];
  }

  /** Line by line the text says what the lines say. */
  lemma {:induction false} ScanQuiet(classify: string -> Kind, det: Detector, st: Scan, lines: seq<string>, ends: seq<string>)
    requires |lines| == |ends|
    requires forall i :: 0 <= i < |lines| ==> IsLineEnd(ends[i]) && Quiet(classify, lines[i], ends[i])
    ensures ScanKinds(det, st, Kinds(classify, SplitLines(JoinLines(lines, ends)))) == ScanKinds(det, st, Kinds(classify, lines))
    decreases |lines|
  {
    hide SplitLines, Advance;
    if lines == [] {
      NothingToSplit();
    } else {
      var own, rest := SplitLines(lines[0] + ends[0]), JoinLines(lines[1..], ends[1..]);
      var head := [classify(lines[0])];
      SplitLineOff(lines[0], ends[0], rest);
      KindsConcat(classify, own, SplitLines(rest));
      ScanConcat(det, st, Kinds(classify, own), Kinds(classify, SplitLines(rest)));
      ScanConcat(det, st, head, Repeat(|own| - 1));
      assert Kinds(classify, lines) == head + Kinds(classify, lines[1..]);
      ScanConcat(det, st, head, Kinds(classify, lines[1..]));
      var next := ScanKinds(det, st, head);
      if next.Some? {
        ScanOthers(det, next.value, |own| - 1);
        ScanQuiet(classify, det, next.value, lines[1..], ends[1..]);
      }
    }
  }

  /** Whatever the names are: as long as every line is quiet, the scanner reports the added lines under the paths it
      believes in. */
  lemma TextScannedAs(classify: string -> Kind, p: Printer, det: Detector, files: seq<FileDiff>, ends: seq<string>)
    requires Reads(classify, p) && WellFormedDiff(files) && NothingStartsPlusPlus(files)
    requires |ends| == |Render(p, files)|
    requires forall i :: 0 <= i < |ends| ==> IsLineEnd(ends[i]) && Quiet(classify, Render(p, files)[i], ends[i])
    ensures ScanDiff(classify, det, SplitLines(JoinLines(Render(p, files), ends))) == Some(Scanned(det, files, None))
  {
    hide Quiet, Reads, Scanned, SplitLines;
    ScanQuiet(classify, det, START, Render(p, files), ends);
    RenderRead(classify, p, files);
    ScanFiles(det, START, files);
    assert START.findings + Scanned(det, files, None) == Scanned(det, files, None);
  }
}
