/** The digest check against the working tree: exactly when the gate opens, and when no allowlist opens it. */
module GateTree {
  import opened Options
  import opened Counting
  import opened Lines
  import opened DiffScan
  import opened DiffRead
  import opened DiffRoundTrip
  import opened DiffUnreadable
  import opened DiffExact
  import opened DiffPitfalls
  import opened ShipGate
  import opened GateExact
  import opened GateNames

  // ---------- any tree ----------

  /** The line the finding names is there, with the finding's digest. */
  predicate FindingCurrent(sha: string -> string, tree: map<string, string>, f: Finding) {
    Current(sha, tree, AllowRecord(f.path, f.line, f.sha256, ""))
  }

  /** Records with the keys of the findings are current exactly when the findings are. */
  lemma {:induction false} MatchingRecordsCurrentIff(
    sha: string -> string, tree: map<string, string>, records: seq<AllowRecord>, findings: seq<Finding>)
    requires SetOf(RecordKeys(records)) == SetOf(FindingKeys(findings))
    ensures (forall k :: 0 <= k < |records| ==> Current(sha, tree, records[k])) <==> forall f :: f in findings ==> FindingCurrent(sha, tree, f)
  {
    hide SplitLines;
    if forall f :: f in findings ==> FindingCurrent(sha, tree, f) {
      forall k | 0 <= k < |records|
        ensures Current(sha, tree, records[k])
      {
        assert RecordKeys(records)[k] in SetOf(FindingKeys(findings));
        var i :| 0 <= i < |findings| && FindingKeys(findings)[i] == RecordKeys(records)[k];
        assert FindingCurrent(sha, tree, findings[i]);
      }
    }
    if forall k :: 0 <= k < |records| ==> Current(sha, tree, records[k]) {
      forall f | f in findings
        ensures FindingCurrent(sha, tree, f)
      {
        var i :| 0 <= i < |findings| && findings[i] == f;
        assert FindingKeys(findings)[i] in SetOf(RecordKeys(records));
        var k :| 0 <= k < |records| && RecordKeys(records)[k] == FindingKeys(findings)[i];
        assert Current(sha, tree, records[k]);
      }
    }
  }

  /** In any tree the gate opens exactly when the allowlist is well formed, holds the keys of the findings, no fewer and
      no more, and every finding is current. */
  lemma {:induction false} GateOpensIff(
    det: Detector, doc: Document, tree: map<string, string>, files: seq<FileDiff>, ends: seq<string>,
    records: seq<AllowRecord>)
    requires Gated(files, ends)
    ensures
      var findings := Scanned(det, files, None);
      Opens(det, doc, tree, GitText(files, ends), records, findings)
      <==> && Parses(doc, records) && SetOf(RecordKeys(records)) == SetOf(FindingKeys(findings))
           && forall f :: f in findings ==> FindingCurrent(det.sha, tree, f)
  {
    hide Gated, Scanned, ScanText, GitText, Parses, Current, FindingCurrent, RecordKeys, FindingKeys;
    GateFindings(det, files, ends);
    var findings := Scanned(det, files, None);
    if SetOf(RecordKeys(records)) == SetOf(FindingKeys(findings)) {
      MatchingRecordsCurrentIff(det.sha, tree, records, findings);
    }
  }

  /** One finding that is not current locks the gate, whatever the allowlist says. */
  lemma {:induction false} StaleFindingLocksGate(
    det: Detector, doc: Document, tree: map<string, string>, files: seq<FileDiff>, ends: seq<string>, f: Finding,
    records: seq<AllowRecord>, findings: seq<Finding>)
    requires Gated(files, ends) && f in Scanned(det, files, None) && !FindingCurrent(det.sha, tree, f)
    ensures !Opens(det, doc, tree, GitText(files, ends), records, findings)
  {
    hide Gated, Scanned, ScanText, GitText, Parses, Current, FindingCurrent;
    GateFindings(det, files, ends);
    GateOpensIff(det, doc, tree, files, ends, records);
  }

  // ---------- a tree at head ----------

  function Texts(lines: seq<NewLine>): seq<string> {
    seq(|lines|, i requires 0 <= i < |lines| => lines[i].text)
  }

  /** The file holds the lines, each with its end. */
  ghost predicate HoldsLines(text: string, lines: seq<string>) {
    exists ends :: Ended(lines, ends) && text == JoinLines(lines, ends)
  }

  /** The working tree holds the new side of the diff. */
  ghost predicate AtHead(tree: map<string, string>, files: seq<FileDiff>) {
    forall j :: 0 <= j < |files| && Changed(files[j]) ==> files[j].path in tree && HoldsLines(tree[files[j].path], Texts(LinesOf(files[j])))
  }

  /** Where the digest check looks for a line that git numbered `k + 1`, and where the line is: `splitlines` numbers the
      pieces of the lines, so every separator ahead shifts the line away from its number. */
  lemma {:induction false} KeptSeparatorShifts(sha: string -> string, tree: map<string, string>, path: string, lines: seq<string>, ends: seq<string>, k: nat, index: nat)
    requires Ended(lines, ends) && path in tree && tree[path] == JoinLines(lines, ends)
    requires k < |lines| && SeparatorFree(lines[k])
    ensures k <= Ahead(lines, ends, k) < |Pieces(lines, ends)| && Pieces(lines, ends)[Ahead(lines, ends, k)] == lines[k]
    ensures FindingCurrent(sha, tree, Finding(path, k + 1, sha(lines[k]), index)) <==> sha(Pieces(lines, ends)[k]) == sha(lines[k])
  {
    hide SplitLines, Pieces, Ahead, JoinLines;
    SplitJoinedPieces(lines, ends);
    LineFoundAt(lines, ends, k);
  }

  /** With no separator in the lines ahead, the check finds the line. */
  lemma UnshiftedCurrent(sha: string -> string, tree: map<string, string>, path: string, lines: seq<string>, k: nat, index: nat)
    requires path in tree && HoldsLines(tree[path], lines)
    requires k < |lines| && forall i :: 0 <= i <= k ==> SeparatorFree(lines[i])
    ensures FindingCurrent(sha, tree, Finding(path, k + 1, sha(lines[k]), index))
  {
    hide SplitLines, Pieces, Ahead, JoinLines, FindingCurrent;
    var ends :| Ended(lines, ends) && tree[path] == JoinLines(lines, ends);
    KeptSeparatorShifts(sha, tree, path, lines, ends, k, index);
    LineFoundAt(lines, ends, k);
  }

  /** No line ahead of an added one holds a separator. */
  ghost predicate Unbroken(f: FileDiff) {
    forall i, k :: 0 <= i < k < |LinesOf(f)| && LinesOf(f)[k].Fresh? ==> SeparatorFree(LinesOf(f)[i].text)
  }

  lemma {:induction false} FreshReadable(hs: seq<Hunk>, tail: seq<string>, k: nat)
    requires ReadableHunks(hs) && k < |NewFile(hs, tail)| && NewFile(hs, tail)[k].Fresh?
    ensures SeparatorFree(NewFile(hs, tail)[k].text)
  {
    if hs != [] {
      var n, m := |hs[0].keep|, |hs[0].keep| + |hs[0].added|;
      if n <= k < m {
        assert ReadableLine(hs[0].added[k - n]);
      } else if m <= k {
        assert forall i :: 0 <= i < |hs[1..]| ==> hs[1..][i] == hs[i + 1];
        FreshReadable(hs[1..], tail, k - m);
      }
    }
  }

  /** In a tree at head whose lines ahead of added ones hold no separator, every finding of a readable diff is current. */
  lemma HeadFindingsCurrent(det: Detector, tree: map<string, string>, files: seq<FileDiff>, f: Finding)
    requires WellFormedDiff(files) && AtHead(tree, files) && f in DiffReport(det, files)
    requires forall j :: 0 <= j < |files| && files[j].Text? ==> ReadableHunks(files[j].hunks)
    requires forall j :: 0 <= j < |files| && Changed(files[j]) ==> Unbroken(files[j])
    ensures FindingCurrent(det.sha, tree, f)
  {
    hide WellFormedFile, FileReport, FindingCurrent, ReadableHunks, HoldsLines, Unbroken, LinesOf;
    DiffReportPaths(det, files, f);
    var j: nat :| j < |files| && Changed(files[j]) && f.path == files[j].path && f in FileReport(det, files[j]);
    FileFindingCurrent(det, tree, files[j], f);
  }

  lemma FileFindingCurrent(det: Detector, tree: map<string, string>, file: FileDiff, f: Finding)
    requires file.Text? && f in FileReport(det, file) && ReadableHunks(file.hunks) && Unbroken(file)
    requires file.path in tree && HoldsLines(tree[file.path], Texts(LinesOf(file)))
    ensures FindingCurrent(det.sha, tree, f)
  {
    hide FindingCurrent, HoldsLines, Hits, FileReport, LinesOf, Unbroken, ReadableHunks, SeparatorFree;
    FileReportHits(det, file, f);
    HitFresh(det, file, f.line - 1);
    AheadFree(file, f.line - 1);
    UnshiftedCurrent(det.sha, tree, f.path, Texts(LinesOf(file)), f.line - 1, f.patternIndex);
  }

  lemma AheadFree(file: FileDiff, k: nat)
    requires file.Text? && ReadableHunks(file.hunks) && Unbroken(file) && k < |LinesOf(file)| && LinesOf(file)[k].Fresh?
    ensures forall i :: 0 <= i <= k ==> SeparatorFree(Texts(LinesOf(file))[i])
  {
    hide ReadableHunks, SeparatorFree, NewFile;
    FreshReadable(file.hunks, file.tail, k);
  }

  lemma HitFresh(det: Detector, f: FileDiff, k: nat)
    requires Hits(det, f, k)
    ensures k < |LinesOf(f)| && LinesOf(f)[k].Fresh?
  {
  }

  /** There the gate opens exactly when the allowlist is well formed and holds the keys of the findings: the digest check
      never adds a refusal. */
  lemma {:induction false} GateOpensAtHeadIff(
    det: Detector, doc: Document, tree: map<string, string>, files: seq<FileDiff>, ends: seq<string>,
    records: seq<AllowRecord>)
    requires Gated(files, ends) && NamesRead(files, None) && AtHead(tree, files)
    requires forall j :: 0 <= j < |files| && Changed(files[j]) ==> Unbroken(files[j])
    ensures
      var findings := DiffReport(det, files);
      Opens(det, doc, tree, GitText(files, ends), records, findings)
      <==> Parses(doc, records) && SetOf(RecordKeys(records)) == SetOf(FindingKeys(findings))
  {
    GateOpensIff(det, doc, tree, files, ends, records);
    NamesReadScanned(det, files, None);
    hide Written, WellFormedFile, AtHead, ScanText, Unbroken, DiffReport, Scanned, Parses, Opens, FindingCurrent, ReadableHunks, NamesRead;
    forall f | f in DiffReport(det, files)
      ensures FindingCurrent(det.sha, tree, f)
    {
      HeadFindingsCurrent(det, tree, files, f);
    }
  }

  /** A separator ahead of a matching added line locks the gate, even at head and for every allowlist, unless the piece
      that stands at the line's number happens to have the line's digest. */
  lemma {:induction false} KeptSeparatorLocksGate(
    det: Detector, doc: Document, tree: map<string, string>, files: seq<FileDiff>, ends: seq<string>, j: nat, k: nat,
    fileEnds: seq<string>, records: seq<AllowRecord>, findings: seq<Finding>)
    requires Gated(files, ends) && NamesRead(files, None)
    requires j < |files| && Changed(files[j]) && Hits(det, files[j], k)
    requires var lines := Texts(LinesOf(files[j]));
             && Ended(lines, fileEnds) && files[j].path in tree && tree[files[j].path] == JoinLines(lines, fileEnds)
             && (k < |Pieces(lines, fileEnds)| ==> det.sha(Pieces(lines, fileEnds)[k]) != det.sha(LineAt(files[j], k)))
    ensures !Opens(det, doc, tree, GitText(files, ends), records, findings)
  {
    var lines := Texts(LinesOf(files[j]));
    HitFresh(det, files[j], k);
    FreshReadable(files[j].hunks, files[j].tail, k);
    HitReported(det, files[j], k);
    hide SplitLines, Pieces, JoinLines, Written, WellFormedFile, Opens, FindingCurrent, FileReport, DiffReport, Scanned, ReadableHunks, Hits, NamesRead;
    var f :| f in FileReport(det, files[j]) && KeyOf(f) == Key(files[j].path, k + 1, det.sha(LineAt(files[j], k)));
    DiffReportIff(det, files, f);
    NamesReadScanned(det, files, None);
    assert lines[k] == LineAt(files[j], k);
    KeptSeparatorShifts(det.sha, tree, files[j].path, lines, fileEnds, k, f.patternIndex);
    assert f == Finding(files[j].path, k + 1, det.sha(lines[k]), f.patternIndex);
    StaleFindingLocksGate(det, doc, tree, files, ends, f, records, findings);
  }

  // ---------- names with blanks ----------

  lemma {:induction false} ScannedWithin(det: Detector, files: seq<FileDiff>, path: Option<string>, j: nat)
    requires j < |files| && files[j].Text? && !files[j].deleted && files[j].quoted.None?
    ensures forall f :: f in Report(det, files[j].path + TabAfter(files[j].path), NewFile(files[j].hunks, files[j].tail), 1)
                    ==> f in Scanned(det, files, path)
  {
    if j > 0 {
      ScannedWithin(det, files[1..], After(path, files[0]), j - 1);
    }
  }

  /** A file whose name holds a blank locks the gate as soon as one of its added lines is found: the finding names a
      path with a tab behind it, and unless the tree has a file of that name, no allowlist at all opens the gate. */
  lemma {:induction false} BlankNameLocksGate(
    det: Detector, doc: Document, tree: map<string, string>, files: seq<FileDiff>, ends: seq<string>, j: nat,
    records: seq<AllowRecord>, findings: seq<Finding>)
    requires Gated(files, ends)
    requires j < |files| && Changed(files[j]) && files[j].quoted.None? && ' ' in files[j].path
    requires FileReport(det, files[j]) != [] && files[j].path + "\t" !in tree
    ensures !Opens(det, doc, tree, GitText(files, ends), records, findings)
  {
    hide Gated, GitText, Opens, Scanned, Report, NewFile, SplitLines;
    var path, lines := files[j].path + "\t", NewFile(files[j].hunks, files[j].tail);
    ScannedWithin(det, files, None, j);
    SameLength(det, files[j].path, path, lines, 1);
    ReportPath(det, path, lines, 1);
    var f := Report(det, path, lines, 1)[0];
    StaleFindingLocksGate(det, doc, tree, files, ends, f, records, findings);
  }

  lemma {:induction false} SameLength(det: Detector, a: string, b: string, lines: seq<NewLine>, at: nat)
    ensures |Report(det, a, lines, at)| == |Report(det, b, lines, at)|
  {
    if lines != [] {
      SameLength(det, a, b, lines[1..], at + 1);
    }
  }
}
