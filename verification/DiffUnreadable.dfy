/** When what the scanner makes of a diff is what should be reported, shown with a pattern that finds everything and so
    betrays every misreading. */
module DiffUnreadable {
  import opened Counting
  import opened Options
  import opened Lines
  import opened DiffScan
  import opened DiffRead
  import opened DiffRoundTrip

  /** One pattern, and it finds something in every line; the digest keeps the line. */
  const MATCH_ALL := Detector([(content: string) => true], (content: string) => content)

  // ---------- contents ----------

  /** Whatever the scanner records, it is the content of a line it read as added. */
  lemma {:induction false} ScanContents(st: Scan, kinds: seq<Kind>, f: Finding)
    requires forall i :: 0 <= i < |kinds| && kinds[i].Plus? ==> ReadableLine(kinds[i].content)
    requires var scanned := ScanKinds(MATCH_ALL, st, kinds); scanned.Some? && f in scanned.value.findings
    ensures f in st.findings || ReadableLine(f.sha256)
    decreases |kinds|
  {
    hide ReadableLine;
    if kinds != [] {
      var next := Advance(MATCH_ALL, st, kinds[0]).value;
      assert forall i :: 0 <= i < |kinds[1..]| ==> kinds[1..][i] == kinds[i + 1];
      ScanContents(next, kinds[1..], f);
    }
  }

  lemma {:induction false} FreshReported(path: string, added: seq<string>, at: nat, k: nat)
    requires k < |added|
    ensures Reported(Report(MATCH_ALL, path, FreshLines(added), at), added[k])
  {
    assert FreshLines(added)[1..] == FreshLines(added[1..]);
    var head, rest := Hit(MATCH_ALL, path, at, added[0]), Report(MATCH_ALL, path, FreshLines(added[1..]), at + 1);
    ReportedConcat(head, rest, added[k]);
    if k == 0 {
      assert MATCH_ALL.patterns[0](added[0]);
      assert head[0].sha256 == added[0];
    } else {
      FreshReported(path, added[1..], at + 1, k - 1);
    }
  }

  /** Some finding of the report holds the line. */
  ghost predicate Reported(report: seq<Finding>, line: string) {
    exists i :: 0 <= i < |report| && report[i].sha256 == line
  }

  lemma ReportedConcat(a: seq<Finding>, b: seq<Finding>, line: string)
    ensures Reported(a, line) || Reported(b, line) ==> Reported(a + b, line)
  {
    if i :| 0 <= i < |a| && a[i].sha256 == line {
      assert (a + b)[i].sha256 == line;
    }
    if i :| 0 <= i < |b| && b[i].sha256 == line {
      assert (a + b)[|a| + i].sha256 == line;
    }
  }

  lemma {:induction false} AddedReported(path: string, hs: seq<Hunk>, tail: seq<string>, at: nat, i: nat, k: nat)
    requires i < |hs| && k < |hs[i].added|
    ensures Reported(Report(MATCH_ALL, path, NewFile(hs, tail), at), hs[i].added[k])
    decreases |hs|
  {
    hide Report, NewFile, FreshLines, Reported;
    var own, rest := at + |hs[0].keep|, at + |hs[0].keep| + |hs[0].added|;
    ReportHunk(MATCH_ALL, path, hs, tail, at);
    ReportedConcat(Report(MATCH_ALL, path, FreshLines(hs[0].added), own), Report(MATCH_ALL, path, NewFile(hs[1..], tail), rest), hs[i].added[k]);
    if i == 0 {
      FreshReported(path, hs[0].added, own, k);
    } else {
      AddedReported(path, hs[1..], tail, rest, i - 1, k);
    }
  }

  lemma {:induction false} FileReportWithin(det: Detector, files: seq<FileDiff>, j: nat, f: Finding)
    requires j < |files| && f in FileReport(det, files[j])
    ensures f in DiffReport(det, files)
  {
    if j > 0 {
      FileReportWithin(det, files[1..], j - 1, f);
    }
  }

  /** A line that is not readable should be reported as it is, and never is. */
  lemma UnreadableLineMisread(classify: string -> Kind, p: Printer, files: seq<FileDiff>, text: string, j: nat)
    requires Reads(classify, p) && j < |files| && files[j].Text? && !ReadableHunks(files[j].hunks)
    ensures ScanDiff(classify, MATCH_ALL, SplitLines(text)) != Some(DiffReport(MATCH_ALL, files))
  {
    var i, k :| 0 <= i < |files[j].hunks| && 0 <= k < |files[j].hunks[i].added| && !ReadableLine(files[j].hunks[i].added[k]);
    AddedReported(files[j].path, files[j].hunks, files[j].tail, 1, i, k);
    var n :| 0 <= n < |FileReport(MATCH_ALL, files[j])| && FileReport(MATCH_ALL, files[j])[n].sha256 == files[j].hunks[i].added[k];
    var f := FileReport(MATCH_ALL, files[j])[n];
    FileReportWithin(MATCH_ALL, files, j, f);
    ContentsReadable(classify, p, text);
  }

  lemma ContentsReadable(classify: string -> Kind, p: Printer, text: string)
    requires Reads(classify, p)
    ensures
      var scanned := ScanDiff(classify, MATCH_ALL, SplitLines(text));
      scanned.Some? ==> forall f :: f in scanned.value ==> ReadableLine(f.sha256)
  {
    var lines := SplitLines(text);
    var kinds := Kinds(classify, lines);
    SplitIsSeparatorFree(text);
    forall i | 0 <= i < |kinds| && kinds[i].Plus?
      ensures ReadableLine(kinds[i].content)
    {
      assert kinds[i] == classify(lines[i]) && SeparatorFree(lines[i]);
    }
    var scanned := ScanKinds(MATCH_ALL, START, kinds);
    if scanned.Some? {
      forall f | f in scanned.value.findings
        ensures ReadableLine(f.sha256)
      {
        ScanContents(START, kinds, f);
      }
    }
  }

  // ---------- names ----------

  /** Lines added by a file's hunks. */
  function AddedCount(hs: seq<Hunk>): nat {
    if hs == [] then 0 else |hs[0].added| + AddedCount(hs[1..])
  }

  lemma {:induction false} AddedCountZero(hs: seq<Hunk>)
    ensures AddedCount(hs) == 0 <==> AddsNothing(hs)
  {
    if hs != [] {
      AddedCountZero(hs[1..]);
      assert AddsNothing(hs) <==> hs[0].added == [] && AddsNothing(hs[1..]);
    }
  }

  lemma {:induction false} ReportAllFresh(path: string, added: seq<string>, at: nat)
    ensures |Report(MATCH_ALL, path, FreshLines(added), at)| == |added|
  {
    if added != [] {
      assert FreshLines(added)[1..] == FreshLines(added[1..]);
      assert MATCH_ALL.patterns[0](added[0]);
      ReportAllFresh(path, added[1..], at + 1);
    }
  }

  lemma {:induction false} ReportAllCount(path: string, hs: seq<Hunk>, tail: seq<string>, at: nat)
    ensures |Report(MATCH_ALL, path, NewFile(hs, tail), at)| == AddedCount(hs)
    decreases |hs|
  {
    if hs == [] {
      ReportKept(MATCH_ALL, path, tail, at);
    } else {
      ReportHunk(MATCH_ALL, path, hs, tail, at);
      ReportAllFresh(path, hs[0].added, at + |hs[0].keep|);
      ReportAllCount(path, hs[1..], tail, at + |hs[0].keep| + |hs[0].added|);
    }
  }

  lemma {:induction false} ReportPath(det: Detector, path: string, lines: seq<NewLine>, at: nat)
    ensures forall i :: 0 <= i < |Report(det, path, lines, at)| ==> Report(det, path, lines, at)[i].path == path
  {
    if lines != [] {
      ReportPath(det, path, lines[1..], at + 1);
    }
  }

  /** Two paths give one report of a file only when it gains nothing or they are one path. */
  lemma SameReportIff(hs: seq<Hunk>, tail: seq<string>, a: string, b: string)
    ensures Report(MATCH_ALL, a, NewFile(hs, tail), 1) == Report(MATCH_ALL, b, NewFile(hs, tail), 1) <==> a == b || AddsNothing(hs)
  {
    ReportAllCount(a, hs, tail, 1);
    ReportAllCount(b, hs, tail, 1);
    AddedCountZero(hs);
    ReportPath(MATCH_ALL, a, NewFile(hs, tail), 1);
    ReportPath(MATCH_ALL, b, NewFile(hs, tail), 1);
    if !AddsNothing(hs) && a != b {
      assert Report(MATCH_ALL, a, NewFile(hs, tail), 1)[0] != Report(MATCH_ALL, b, NewFile(hs, tail), 1)[0];
    }
  }

  ghost predicate NameRead(f: FileDiff, path: Option<string>) {
    f.Text? && !AddsNothing(f.hunks) ==> path == Some(f.path)
  }

  lemma FileScannedIff(f: FileDiff, path: Option<string>)
    requires f.Text? && f.deleted ==> NewFile(f.hunks, f.tail) == []
    ensures FileScanned(MATCH_ALL, f, path) == FileReport(MATCH_ALL, f) <==> NameRead(f, path)
    ensures |FileScanned(MATCH_ALL, f, path)| <= |FileReport(MATCH_ALL, f)|
    ensures path.Some? ==> |FileScanned(MATCH_ALL, f, path)| == |FileReport(MATCH_ALL, f)|
  {
    if f.Text? {
      ReportAllCount(f.path, f.hunks, f.tail, 1);
      AddedCountZero(f.hunks);
      if path.Some? {
        ReportAllCount(path.value, f.hunks, f.tail, 1);
        SameReportIff(f.hunks, f.tail, path.value, f.path);
      }
    }
  }

  lemma {:induction false} ScannedAtMost(files: seq<FileDiff>, path: Option<string>)
    requires WellFormedDiff(files)
    ensures |Scanned(MATCH_ALL, files, path)| <= |DiffReport(MATCH_ALL, files)|
    decreases |files|
  {
    hide FileScanned, FileReport, After;
    if files != [] {
      FileScannedIff(files[0], After(path, files[0]));
      ScannedAtMost(files[1..], After(path, files[0]));
    }
  }

  /** The findings are right exactly when the names are. */
  lemma {:induction false} ScannedIffNamesRead(files: seq<FileDiff>, path: Option<string>)
    requires WellFormedDiff(files)
    ensures Scanned(MATCH_ALL, files, path) == DiffReport(MATCH_ALL, files) <==> NamesRead(files, path)
    decreases |files|
  {
    hide FileScanned, FileReport, After;
    if files != [] {
      var now := After(path, files[0]);
      FileScannedIff(files[0], now);
      ScannedAtMost(files[1..], now);
      ScannedIffNamesRead(files[1..], now);
      SamePieces(FileScanned(MATCH_ALL, files[0], now), Scanned(MATCH_ALL, files[1..], now),
                 FileReport(MATCH_ALL, files[0]), DiffReport(MATCH_ALL, files[1..]));
      assert NamesRead(files, path) <==> NameRead(files[0], now) && NamesRead(files[1..], now);
    }
  }

  lemma FileScannedRight(det: Detector, f: FileDiff, path: Option<string>)
    requires NameRead(f, path)
    ensures FileScanned(det, f, path) == FileReport(det, f)
  {
    if f.Text? && path != Some(f.path) {
      ReportNothing(det, f.path, f.hunks, f.tail, 1);
      if path.Some? {
        ReportNothing(det, path.value, f.hunks, f.tail, 1);
      }
    }
  }

  /** Right names make the findings right for every set of patterns. */
  lemma {:induction false} NamesReadScanned(det: Detector, files: seq<FileDiff>, path: Option<string>)
    requires NamesRead(files, path)
    ensures Scanned(det, files, path) == DiffReport(det, files)
    decreases |files|
  {
    hide FileScanned, FileReport, After;
    if files != [] {
      var now := After(path, files[0]);
      assert NameRead(files[0], now) && NamesRead(files[1..], now);
      FileScannedRight(det, files[0], now);
      NamesReadScanned(det, files[1..], now);
    }
  }

  // ---------- plain names ----------

  /** Git prints the name as it is. */
  predicate PlainName(f: FileDiff) {
    f.Text? && !AddsNothing(f.hunks) ==> f.deleted || (f.quoted.None? && ' ' !in f.path)
  }

  /** No name that git quotes happens to be what the scanner takes another file's name for. */
  ghost predicate NoLuckyNames(files: seq<FileDiff>, path: Option<string>) {
    forall i :: 0 <= i < |files| && files[i].Text? && files[i].quoted.Some? ==>
      && path != Some(files[i].path)
      && forall k :: 0 <= k < |files| && files[k].Text? && files[k].quoted.None? ==> files[k].path + TabAfter(files[k].path) != files[i].path
  }

  /** Apart from such luck the names are read exactly when every file that gains lines has a name without blanks that
      git does not quote. */
  lemma {:induction false} NamesReadIffPlain(files: seq<FileDiff>, path: Option<string>)
    requires WellFormedDiff(files) && NoLuckyNames(files, path)
    ensures NamesRead(files, path) <==> forall j :: 0 <= j < |files| ==> PlainName(files[j])
    decreases |files|
  {
    if files != [] {
      var f, now := files[0], After(path, files[0]);
      if f.Text? && f.deleted {
        EmptyFileAddsNothing(f.hunks, f.tail);
      }
      assert NoLuckyNames(files[1..], now) by {
        assert forall i :: 0 <= i < |files[1..]| ==> files[1..][i] == files[i + 1];
      }
      assert WellFormedDiff(files[1..]);
      NamesReadIffPlain(files[1..], now);
      PlainHead(files, path);
      assert (forall j :: 0 <= j < |files| ==> PlainName(files[j])) <==> PlainName(f) && forall j :: 0 <= j < |files[1..]| ==> PlainName(files[1..][j]) by {
        assert forall j :: 1 <= j < |files| ==> files[j] == files[1..][j - 1];
      }
    }
  }

  lemma PlainHead(files: seq<FileDiff>, path: Option<string>)
    requires files != [] && WellFormedFile(files[0]) && NoLuckyNames(files, path)
    ensures NameRead(files[0], After(path, files[0])) <==> PlainName(files[0])
  {
    var f := files[0];
    if f.Text? && f.deleted {
      EmptyFileAddsNothing(f.hunks, f.tail);
    } else if f.Text? && f.quoted.None? && ' ' in f.path {
      assert |f.path + TabAfter(f.path)| == |f.path| + 1;
    } else if f.Text? {
      assert f.path + "" == f.path;
    }
  }
}
