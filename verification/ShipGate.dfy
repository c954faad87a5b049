/** The gate around the scanner: a reviewed allowlist that has to equal the findings exactly. */
module ShipGate {
  import opened Options
  import opened Counting
  import opened Lines
  import opened DiffScan
  import opened DiffExact
  import opened ExactPaths

  // ---------- the allowlist ----------

  /** A field of an allowlist entry as JSON holds it. */
  datatype Raw = Text(s: string) | Number(n: int) | Boolean(b: bool) | Else

  datatype RawItem = NotAnObject | Item(path: Raw, line: Raw, sha256: Raw, triageId: Raw)

  /** The allowlist file: unreadable, or a version and an entry list where they are what they should be. */
  datatype Document = Unreadable | Document(versionIsOne: bool, entries: Option<seq<RawItem>>)

  datatype AllowRecord = AllowRecord(path: string, line: nat, sha256: string, triageId: string)

  /** Path, line and digest: what findings and records are compared by. */
  datatype Key = Key(path: string, line: nat, sha256: string)

  /** Python counts booleans as integers. */
  function IntOf(r: Raw): Option<int> {
    match r
    case Number(n) => Some(n)
    case Boolean(b) => Some(if b then 1 else 0)
    case _ => None
  }

  predicate IsHex64(s: string) {
    |s| == 64 && forall i :: 0 <= i < 64 ==> '0' <= s[i] <= '9' || 'a' <= s[i] <= 'f'
  }

  predicate IsTriageId(s: string) {
    "SHIP-SEC-" <= s && |s| == 12 && forall i :: 9 <= i < 12 ==> '0' <= s[i] <= '9'
  }

  predicate ValidItem(item: RawItem) {
    && item.Item?
    && item.path.Text?
    && IntOf(item.line).Some? && IntOf(item.line).value >= 1
    && item.sha256.Text? && IsHex64(item.sha256.s)
    && item.triageId.Text? && IsTriageId(item.triageId.s)
    && IsExactPath(item.path.s)
  }

  function ToRecord(item: RawItem): AllowRecord
    requires ValidItem(item)
  {
    AllowRecord(item.path.s, IntOf(item.line).value, item.sha256.s, item.triageId.s)
  }

  function RecordKeys(records: seq<AllowRecord>): seq<Key> {
    seq(|records|, i requires 0 <= i < |records| => Key(records[i].path, records[i].line, records[i].sha256))
  }

  function TriageIds(records: seq<AllowRecord>): seq<string> {
    seq(|records|, i requires 0 <= i < |records| => records[i].triageId)
  }

  function FindingKeys(findings: seq<Finding>): seq<Key> {
    seq(|findings|, i requires 0 <= i < |findings| => Key(findings[i].path, findings[i].line, findings[i].sha256))
  }

  /** `records` is what an acceptable allowlist file says. */
  ghost predicate Parses(doc: Document, records: seq<AllowRecord>) {
    && doc.Document? && doc.versionIsOne && doc.entries.Some?
    && |records| == |doc.entries.value|
    && (forall i :: 0 <= i < |records| ==> ValidItem(doc.entries.value[i]) && records[i] == ToRecord(doc.entries.value[i]))
    && Distinct(RecordKeys(records)) && Distinct(TriageIds(records))
  }

  /** The entry is an object whose four fields give the record, each of the form that is asked for. */
  ghost predicate SaysRecord(item: RawItem, r: AllowRecord) {
    && item.Item? && item.path == Raw.Text(r.path) && item.sha256 == Raw.Text(r.sha256) && item.triageId == Raw.Text(r.triageId)
    && r.line >= 1 && (item.line == Number(r.line) || (item.line == Boolean(true) && r.line == 1))
    && |r.sha256| == 64 && (forall i :: 0 <= i < 64 ==> '0' <= r.sha256[i] <= '9' || 'a' <= r.sha256[i] <= 'f')
    && |r.triageId| == 12 && r.triageId[..9] == "SHIP-SEC-" && (forall i :: 9 <= i < 12 ==> '0' <= r.triageId[i] <= '9')
  }

  /** `parse_allowlist`; `None` is a raised `ScanError`. */
  method ParseAllowlist(doc: Document) returns (records: Option<seq<AllowRecord>>)
    ensures records.Some? ==> Parses(doc, records.value)
    ensures records.None? ==> forall rs :: !Parses(doc, rs)
    ensures records.Some? ==> forall i :: 0 <= i < |records.value| ==> SaysRecord(doc.entries.value[i], records.value[i])
  {
    if doc.Unreadable? || !doc.versionIsOne || doc.entries.None? {
      return None;
    }
    var items := doc.entries.value;
    var parsed: seq<AllowRecord> := [];
    for i := 0 to |items|
      invariant |parsed| == i
      invariant forall k :: 0 <= k < i ==> ValidItem(items[k]) && parsed[k] == ToRecord(items[k])
    {
      if !ValidItem(items[i]) {
        return None;
      }
      parsed := parsed + [ToRecord(items[i])];
    }
    forall i | 0 <= i < |parsed|
      ensures SaysRecord(items[i], parsed[i])
    {
    }
    forall rs | Parses(doc, rs)
      ensures rs == parsed
    {
    }
    var keys, ids := RecordKeys(parsed), TriageIds(parsed);
    SetSizeIff(keys);
    SetSizeIff(ids);
    if |SetOf(keys)| != |keys| || |SetOf(ids)| != |parsed| {
      return None;
    }
    return Some(parsed);
  }

  lemma RecordTaken(item: RawItem, r: AllowRecord)
    ensures ValidItem(item) && r == ToRecord(item) <==> SaysRecord(item, r) && IsExactPath(r.path)
  {
    hide IsExactPath;
  }

  /** An allowlist is acceptable, and says these records, exactly when it has version 1, an entry for each record that says it
      under an exact path, and repeats neither place and digest nor triage id. */
  lemma ParsesSays(doc: Document, records: seq<AllowRecord>)
    ensures Parses(doc, records) <==>
      && doc.Document? && doc.versionIsOne && doc.entries.Some? && |doc.entries.value| == |records|
      && (forall i :: 0 <= i < |records| ==> SaysRecord(doc.entries.value[i], records[i]) && IsExactPath(records[i].path))
      && (forall i, j :: 0 <= i < j < |records| ==>
            && records[i].triageId != records[j].triageId
            && (records[i].path, records[i].line, records[i].sha256) != (records[j].path, records[j].line, records[j].sha256))
  {
    hide SaysRecord, IsExactPath, ValidItem;
    if doc.Document? && doc.entries.Some? && |doc.entries.value| == |records| {
      forall i | 0 <= i < |records|
        ensures ValidItem(doc.entries.value[i]) && records[i] == ToRecord(doc.entries.value[i])
           <==> SaysRecord(doc.entries.value[i], records[i]) && IsExactPath(records[i].path)
      {
        RecordTaken(doc.entries.value[i], records[i]);
      }
      var keys, ids := RecordKeys(records), TriageIds(records);
      forall i, j | 0 <= i < j < |records|
        ensures keys[i] != keys[j] <==> (records[i].path, records[i].line, records[i].sha256) != (records[j].path, records[j].line, records[j].sha256)
        ensures ids[i] != ids[j] <==> records[i].triageId != records[j].triageId
      {
      }
    }
  }

  // ---------- the working tree ----------

  /** The line a record names is there and has the recorded digest. */
  predicate Current(sha: string -> string, tree: map<string, string>, r: AllowRecord) {
    && r.path in tree
    && 1 <= r.line <= |SplitLines(tree[r.path])|
    && sha(SplitLines(tree[r.path])[r.line - 1]) == r.sha256
  }

  // ---------- the report ----------

  datatype Status = PASS | FAIL | VALIDATE_ONLY_PASS

  datatype ReportLine =
    | AllowlistMatch(triageId: string, finding: Finding)
    | UnreviewedMatch(unreviewed: Finding)

  datatype ScanReport = ScanReport(
    status: Status, recordCount: nat, findingCount: nat, lines: seq<ReportLine>, hasError: bool)

  function KeyOf(f: Finding): Key {
    Key(f.path, f.line, f.sha256)
  }

  ghost predicate Reviewed(records: seq<AllowRecord>, f: Finding) {
    KeyOf(f) in RecordKeys(records)
  }

  /** Each finding in order, as reviewed under some record with its key, or as unreviewed when there is none. */
  ghost predicate Describes(lines: seq<ReportLine>, records: seq<AllowRecord>, findings: seq<Finding>) {
    && |lines| == |findings|
    && forall i :: 0 <= i < |findings| ==>
        match lines[i]
        case AllowlistMatch(id, f) =>
          f == findings[i] && exists k :: 0 <= k < |records| && records[k].triageId == id && RecordKeys(records)[k] == KeyOf(f)
        case UnreviewedMatch(f) => f == findings[i] && !Reviewed(records, f)
  }

  /** `write_report`, up to the text of its lines. */
  method WriteReport(records: seq<AllowRecord>, findings: seq<Finding>, status: Status, hasError: bool) returns (report: ScanReport)
    ensures report.status == status && report.hasError == hasError
    ensures report.recordCount == |records| && report.findingCount == |findings|
    ensures Describes(report.lines, records, findings)
  {
    var byKey: map<Key, AllowRecord> := map[];
    var keys := RecordKeys(records);
    for i := 0 to |records|
      invariant forall key :: key in byKey <==> key in keys[..i]
      invariant forall key :: key in byKey ==> exists k :: 0 <= k < i && keys[k] == key && records[k] == byKey[key]
    {
      byKey := byKey[keys[i] := records[i]];
      assert keys[..i + 1] == keys[..i] + [keys[i]];
    }
    assert keys[..|records|] == keys;
    var lines: seq<ReportLine> := [];
    for i := 0 to |findings|
      invariant Describes(lines, records, findings[..i])
    {
      var f := findings[i];
      if KeyOf(f) in byKey {
        lines := lines + [AllowlistMatch(byKey[KeyOf(f)].triageId, f)];
      } else {
        lines := lines + [UnreviewedMatch(f)];
      }
      assert findings[..i + 1] == findings[..i] + [f];
    }
    assert findings[..|findings|] == findings;
    report := ScanReport(status, |records|, |findings|, lines, hasError);
  }

  // ---------- the gate ----------

  /** What git answers: a failed command, or the diff between two ends that both exist. */
  datatype GitOutput = GitFailed | Diff(text: string)

  /** The gate opens on these records and findings. */
  ghost predicate Opens(
    det: Detector, doc: Document, tree: map<string, string>, git: GitOutput, records: seq<AllowRecord>, findings: seq<Finding>)
  {
    && Parses(doc, records)
    && (forall k :: 0 <= k < |records| ==> Current(det.sha, tree, records[k]))
    && git.Diff? && ScanText(det, git.text) == Some(findings)
    && SetOf(RecordKeys(records)) == SetOf(FindingKeys(findings))
  }

  /** The findings, where the gate gets as far as having any. */
  ghost function GateScan(
    det: Detector, doc: Document, tree: map<string, string>, git: GitOutput, records: seq<AllowRecord>, validateOnly: bool): Option<seq<Finding>>
  {
    if validateOnly || git.GitFailed? || exists k :: 0 <= k < |records| && !Current(det.sha, tree, records[k]) then None
    else ScanText(det, git.text)
  }

  /** A report that describes the findings lists each without a record as unreviewed, and no other. */
  lemma UnreviewedListed(lines: seq<ReportLine>, records: seq<AllowRecord>, findings: seq<Finding>, i: nat)
    requires Describes(lines, records, findings) && i < |findings|
    ensures i < |lines|
    ensures lines[i] == UnreviewedMatch(findings[i])
       <==> forall r :: r in records ==> (r.path, r.line, r.sha256) != (findings[i].path, findings[i].line, findings[i].sha256)
  {
    var f, keys := findings[i], RecordKeys(records);
    if r :| r in records && (r.path, r.line, r.sha256) == (f.path, f.line, f.sha256) {
      var k :| 0 <= k < |records| && records[k] == r;
      assert keys[k] == KeyOf(f);
    }
    if Reviewed(records, f) {
      var k :| 0 <= k < |keys| && keys[k] == KeyOf(f);
      assert records[k] in records;
    }
  }

  /** A gate refused because the two sets differ says so line by line: some finding is listed as unreviewed, or some record
      has no finding. */
  lemma RefusalShows(lines: seq<ReportLine>, records: seq<AllowRecord>, findings: seq<Finding>)
    requires Describes(lines, records, findings)
    ensures SetOf(RecordKeys(records)) != SetOf(FindingKeys(findings))
       <==> || (exists i :: 0 <= i < |lines| && lines[i].UnreviewedMatch?)
            || exists k :: 0 <= k < |records| && RecordKeys(records)[k] !in FindingKeys(findings)
  {
    var keys, found := RecordKeys(records), FindingKeys(findings);
    if i :| 0 <= i < |lines| && lines[i].UnreviewedMatch? {
      assert found[i] == KeyOf(findings[i]) && found[i] in SetOf(found) && found[i] !in SetOf(keys);
    }
    if k :| 0 <= k < |records| && keys[k] !in found {
      assert keys[k] in SetOf(keys) && keys[k] !in SetOf(found);
    }
    if (forall i :: 0 <= i < |lines| ==> !lines[i].UnreviewedMatch?) && (forall k :: 0 <= k < |records| ==> keys[k] in found) {
      forall key | key in SetOf(found)
        ensures key in SetOf(keys)
      {
        var i :| 0 <= i < |found| && found[i] == key;
        assert lines[i].AllowlistMatch?;
      }
    }
  }

  /** `main`: the exit code and the last report written, if any. */
  method RunGate(det: Detector, doc: Document, tree: map<string, string>, git: GitOutput, validateOnly: bool)
    returns (exitCode: int, report: Option<ScanReport>)
    ensures exitCode == 0 || exitCode == 1
    ensures validateOnly ==>
      (exitCode == 0 <==> exists rs :: Parses(doc, rs) && forall k :: 0 <= k < |rs| ==> Current(det.sha, tree, rs[k]))
    ensures !validateOnly ==> (exitCode == 0 <==> exists rs, fs :: Opens(det, doc, tree, git, rs, fs))
    ensures exitCode == 0 ==>
      report.Some? && report.value.status == (if validateOnly then VALIDATE_ONLY_PASS else PASS) && !report.value.hasError
    ensures exitCode == 1 ==> report.None? || (report.value.status == FAIL && report.value.hasError)
    ensures report.None? <==> forall rs :: !Parses(doc, rs)
    ensures forall rs :: Parses(doc, rs) ==>
      && report.Some? && report.value.recordCount == |rs|
      && match GateScan(det, doc, tree, git, rs, validateOnly)
         case Some(fs) => report.value.findingCount == |fs| && Describes(report.value.lines, rs, fs)
         case None => report.value.findingCount == 0 && report.value.lines == []
    ensures exitCode == 0 && !validateOnly ==>
      exists rs, fs :: Opens(det, doc, tree, git, rs, fs)
        && report.value.recordCount == |rs| && report.value.findingCount == |fs| && Describes(report.value.lines, rs, fs)
  {
    exitCode, report := 1, None;
    var parsed := ParseAllowlist(doc);
    if parsed.None? {
      return;
    }
    var records := parsed.value;
    assert forall rs :: Parses(doc, rs) ==> rs == records;
    for k := 0 to |records|
      invariant exitCode == 1 && report.None?
      invariant forall j :: 0 <= j < k ==> Current(det.sha, tree, records[j])
    {
      if !Current(det.sha, tree, records[k]) {
        var failed := WriteReport(records, [], FAIL, true);
        report := Some(failed);
        return;
      }
    }
    if validateOnly {
      var passed := WriteReport(records, [], VALIDATE_ONLY_PASS, false);
      return 0, Some(passed);
    }
    if git.GitFailed? {
      var failed := WriteReport(records, [], FAIL, true);
      report := Some(failed);
      return;
    }
    var scanned := ScanAddedLines(det, git.text);
    if scanned.None? {
      var failed := WriteReport(records, [], FAIL, true);
      report := Some(failed);
      return;
    }
    var findings := scanned.value;
    if SetOf(FindingKeys(findings)) != SetOf(RecordKeys(records)) {
      var failed := WriteReport(records, findings, FAIL, true);
      report := Some(failed);
      return;
    }
    assert Opens(det, doc, tree, git, records, findings);
    var passed := WriteReport(records, findings, PASS, false);
    return 0, Some(passed);
  }
}
