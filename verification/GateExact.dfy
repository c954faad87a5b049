/** What an open gate is worth: records against findings. */
module GateExact {
  import opened Options
  import opened Counting
  import opened Lines
  import opened DiffScan
  import opened DiffRead
  import opened DiffRoundTrip
  import opened DiffUnreadable
  import opened DiffExact
  import opened ShipGate

  /** An open gate reports every finding as reviewed, whatever the diff was. */
  lemma OpenGateReviewsAll(
    det: Detector, doc: Document, tree: map<string, string>, git: GitOutput,
    records: seq<AllowRecord>, findings: seq<Finding>, lines: seq<ReportLine>)
    requires Opens(det, doc, tree, git, records, findings)
    requires Describes(lines, records, findings)
    ensures forall i :: 0 <= i < |lines| ==> lines[i].AllowlistMatch?
  {
    forall i | 0 <= i < |lines|
      ensures lines[i].AllowlistMatch?
    {
      assert FindingKeys(findings)[i] == KeyOf(findings[i]);
      assert KeyOf(findings[i]) in SetOf(FindingKeys(findings));
    }
  }

  // ---------- findings of a real diff never share a key ----------

  /** The file is there after the change, with lines that may be new. */
  predicate Changed(f: FileDiff) {
    f.Text? && !f.deleted
  }

  lemma {:induction false} DiffReportPaths(det: Detector, files: seq<FileDiff>, f: Finding)
    requires WellFormedDiff(files) && f in DiffReport(det, files)
    ensures exists j :: 0 <= j < |files| && Changed(files[j]) && f.path == files[j].path && f in FileReport(det, files[j])
  {
    if f in FileReport(det, files[0]) {
      ReportPath(det, files[0].path, NewFile(files[0].hunks, files[0].tail), 1);
    } else {
      DiffReportPaths(det, files[1..], f);
      var j :| 0 <= j < |files[1..]| && Changed(files[1..][j]) && f.path == files[1..][j].path && f in FileReport(det, files[1..][j]);
      assert files[j + 1] == files[1..][j];
    }
  }

  ghost predicate DistinctPlaces(findings: seq<Finding>) {
    forall i, j :: 0 <= i < j < |findings| ==> findings[i].path != findings[j].path || findings[i].line != findings[j].line
  }

  /** Git lists a path once, but for a change of its type, which it prints as a deletion and a new file. */
  ghost predicate DistinctPaths(files: seq<FileDiff>) {
    forall i, j :: 0 <= i < j < |files| && Changed(files[i]) && Changed(files[j]) ==> files[i].path != files[j].path
  }

  lemma FileReportPlaces(det: Detector, f: FileDiff)
    ensures DistinctPlaces(FileReport(det, f))
  {
    if f.Text? {
      ReportAscends(det, f.path, NewFile(f.hunks, f.tail), 1);
    }
  }

  /** No two findings of a diff are about one line of one file. */
  lemma {:induction false} DiffReportPlaces(det: Detector, files: seq<FileDiff>)
    requires WellFormedDiff(files) && DistinctPaths(files)
    ensures DistinctPlaces(DiffReport(det, files))
  {
    if files != [] {
      assert forall i :: 0 <= i < |files[1..]| ==> files[1..][i] == files[i + 1];
      var first, rest := FileReport(det, files[0]), DiffReport(det, files[1..]);
      FileReportPlaces(det, files[0]);
      DiffReportPlaces(det, files[1..]);
      forall i, j | 0 <= i < |first| && 0 <= j < |rest|
        ensures first[i].path != rest[j].path
      {
        ReportPath(det, files[0].path, NewFile(files[0].hunks, files[0].tail), 1);
        DiffReportPaths(det, files[1..], rest[j]);
        assert files[0].Text? && (files[0].deleted ==> first == []);
      }
    }
  }

  /** Each finding has exactly one record under its key, and each record exactly one finding. */
  ghost predicate OneToOne(records: seq<AllowRecord>, findings: seq<Finding>) {
    && |records| == |findings|
    && Distinct(RecordKeys(records)) && Distinct(FindingKeys(findings))
    && SetOf(RecordKeys(records)) == SetOf(FindingKeys(findings))
  }

  /** Whatever was scanned, an open gate has no more records than findings, and as many exactly when no two findings
      share a key. */
  lemma OpenGateCounts(
    det: Detector, doc: Document, tree: map<string, string>, git: GitOutput,
    records: seq<AllowRecord>, findings: seq<Finding>)
    requires Opens(det, doc, tree, git, records, findings)
    ensures |records| <= |findings|
    ensures |records| == |findings| <==> Distinct(FindingKeys(findings))
  {
    SetSizeIff(RecordKeys(records));
    SetSizeIff(FindingKeys(findings));
  }

  /** On a readable diff an open gate pairs records and findings one to one, so both report counts agree. */
  lemma {:induction false} ReadableGateIsOneToOne(
    det: Detector, doc: Document, tree: map<string, string>, files: seq<FileDiff>, ends: seq<string>,
    records: seq<AllowRecord>, findings: seq<Finding>)
    requires WellFormedDiff(files) && DistinctPaths(files) && Readable(files) && Written(Classify, Render(GIT, files), ends)
    requires Opens(det, doc, tree, Diff(JoinLines(Render(GIT, files), ends)), records, findings)
    ensures OneToOne(records, findings)
  {
    hide Readable, Quiet, WellFormedFile, DistinctPaths, ScanText, DiffReport, Parses, JoinLines, Render;
    GitScannerExact(files, ends);
    PlacesPairUp(det, doc, files, records, findings);
  }

  lemma PlacesPairUp(det: Detector, doc: Document, files: seq<FileDiff>, records: seq<AllowRecord>, findings: seq<Finding>)
    requires WellFormedDiff(files) && DistinctPaths(files) && findings == DiffReport(det, files)
    requires Parses(doc, records) && SetOf(RecordKeys(records)) == SetOf(FindingKeys(findings))
    ensures OneToOne(records, findings)
  {
    DiffReportPlaces(det, files);
    SameMembersSameLength(RecordKeys(records), FindingKeys(findings));
  }
}
