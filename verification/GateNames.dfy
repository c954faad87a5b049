/** What an open gate is worth when the scanner believes in other names than the files have. */
module GateNames {
  import opened Options
  import opened Counting
  import opened Lines
  import opened DiffScan
  import opened DiffRead
  import opened DiffRoundTrip
  import opened DiffUnreadable
  import opened DiffExact
  import opened DiffPitfalls
  import opened ShipGate
  import opened GateExact

  // ---------- findings file by file, under the paths believed in ----------

  function LinesOf(f: FileDiff): seq<NewLine> {
    if f.Text? then NewFile(f.hunks, f.tail) else []
  }

  function LineAt(f: FileDiff, k: nat): string {
    if k < |LinesOf(f)| then LinesOf(f)[k].text else ""
  }

  /** The path the scanner believes in at file `i`. */
  function Believed(files: seq<FileDiff>, path: Option<string>, i: nat): Option<string>
    requires i < |files|
  {
    if i == 0 then After(path, files[0]) else Believed(files[1..], After(path, files[0]), i - 1)
  }

  /** Line `k` of the new file was added and matches. */
  predicate Hits(det: Detector, f: FileDiff, k: nat) {
    k < |LinesOf(f)| && LinesOf(f)[k].Fresh? && FirstMatch(det.patterns, LineAt(f, k)).Some?
  }

  predicate SameHit(det: Detector, f: FileDiff, g: FileDiff, k: nat) {
    Hits(det, f, k) && Hits(det, g, k) && det.sha(LineAt(f, k)) == det.sha(LineAt(g, k))
  }

  ghost predicate InFile(det: Detector, files: seq<FileDiff>, path: Option<string>, i: nat, f: Finding) {
    i < |files| && f in FileScanned(det, files[i], Believed(files, path, i))
  }

  lemma {:induction false} ScannedIff(det: Detector, files: seq<FileDiff>, path: Option<string>, f: Finding)
    ensures f in Scanned(det, files, path) <==> exists i: nat :: InFile(det, files, path, i, f)
    decreases |files|
  {
    hide FileScanned, After;
    if files != [] {
      var now := After(path, files[0]);
      ScannedIff(det, files[1..], now, f);
      assert f in FileScanned(det, files[0], now) <==> InFile(det, files, path, 0, f);
      if i: nat :| InFile(det, files[1..], now, i, f) {
        assert InFile(det, files, path, i + 1, f);
      }
      if i: nat :| InFile(det, files, path, i, f) {
        assert i > 0 ==> InFile(det, files[1..], now, i - 1, f);
      }
    }
  }

  /** The key is that of a matching added line of the file, under the path. */
  predicate KeyHits(det: Detector, f: FileDiff, path: Option<string>, key: Key) {
    path == Some(key.path) && key.line >= 1 && Hits(det, f, key.line - 1) && det.sha(LineAt(f, key.line - 1)) == key.sha256
  }

  /** A file is reported under a path, line by line. */
  lemma FileScannedHits(det: Detector, f: FileDiff, path: Option<string>, key: Key)
    ensures (exists g :: g in FileScanned(det, f, path) && KeyOf(g) == key) <==> KeyHits(det, f, path, key)
  {
    hide Report, NewFile, FirstMatch;
    if g :| g in FileScanned(det, f, path) && KeyOf(g) == key {
      ReportIff(det, path.value, LinesOf(f), 1, g);
      var k: nat :| PointsAt(det, path.value, LinesOf(f), 1, k, g);
      assert key.line == k + 1;
    }
    if KeyHits(det, f, path, key) {
      var k := key.line - 1;
      var g := Finding(key.path, key.line, key.sha256, FirstMatch(det.patterns, LineAt(f, k)).value);
      ReportIff(det, key.path, LinesOf(f), 1, g);
      assert PointsAt(det, key.path, LinesOf(f), 1, k, g);
      assert g in FileScanned(det, f, path) && KeyOf(g) == key;
    }
  }

  lemma FileKeyIff(det: Detector, f: FileDiff, path: Option<string>, key: Key)
    ensures key in SetOf(FindingKeys(FileScanned(det, f, path))) <==> KeyHits(det, f, path, key)
  {
    hide FileScanned, FindingKeys, KeyHits;
    FileScannedHits(det, f, path, key);
    KeyListed(FileScanned(det, f, path), key);
  }

  lemma KeyListed(findings: seq<Finding>, key: Key)
    ensures key in SetOf(FindingKeys(findings)) <==> exists f :: f in findings && KeyOf(f) == key
  {
    if f :| f in findings && KeyOf(f) == key {
      var i :| 0 <= i < |findings| && findings[i] == f;
      assert FindingKeys(findings)[i] == key;
    }
    if key in FindingKeys(findings) {
      var i :| 0 <= i < |findings| && FindingKeys(findings)[i] == key;
      assert findings[i] in findings && KeyOf(findings[i]) == key;
    }
  }

  ghost predicate KeyAt(det: Detector, files: seq<FileDiff>, path: Option<string>, i: nat, key: Key) {
    i < |files| && KeyHits(det, files[i], Believed(files, path, i), key)
  }

  /** Which keys the scanner reports: those of the matching added lines, under the paths believed in. */
  lemma {:induction false} ScannedKeysIff(det: Detector, files: seq<FileDiff>, path: Option<string>, key: Key)
    ensures key in SetOf(FindingKeys(Scanned(det, files, path))) <==> exists i: nat :: KeyAt(det, files, path, i, key)
  {
    hide FileScanned, Scanned, KeyHits, Believed;
    KeyListed(Scanned(det, files, path), key);
    if f :| f in Scanned(det, files, path) && KeyOf(f) == key {
      ScannedIff(det, files, path, f);
      var i: nat :| InFile(det, files, path, i, f);
      FileScannedHits(det, files[i], Believed(files, path, i), key);
      assert KeyAt(det, files, path, i, key);
    }
    if i: nat :| KeyAt(det, files, path, i, key) {
      FileScannedHits(det, files[i], Believed(files, path, i), key);
      var f :| f in FileScanned(det, files[i], Believed(files, path, i)) && KeyOf(f) == key;
      assert InFile(det, files, path, i, f);
      ScannedIff(det, files, path, f);
    }
  }

  // ---------- one record for several findings ----------

  /** Two files believed under one path share a matching line number and digest. */
  ghost predicate SharedLine(det: Detector, files: seq<FileDiff>, path: Option<string>, i: nat, j: nat)
    requires i < |files| && j < |files|
  {
    Believed(files, path, i).Some? && Believed(files, path, i) == Believed(files, path, j) && exists k: nat :: SameHit(det, files[i], files[j], k)
  }

  ghost predicate NoSharedLine(det: Detector, files: seq<FileDiff>, path: Option<string>) {
    forall i: nat, j: nat :: i < j < |files| ==> !SharedLine(det, files, path, i, j)
  }

  lemma FileScannedDistinct(det: Detector, f: FileDiff, path: Option<string>)
    ensures Distinct(FindingKeys(FileScanned(det, f, path)))
  {
    if f.Text? && path.Some? {
      ReportAscends(det, path.value, NewFile(f.hunks, f.tail), 1);
    }
  }

  lemma DistinctPieces(a: seq<Finding>, b: seq<Finding>)
    ensures Distinct(FindingKeys(a + b))
       <==> Distinct(FindingKeys(a)) && Distinct(FindingKeys(b)) && SetOf(FindingKeys(a)) !! SetOf(FindingKeys(b))
  {
    hide Distinct;
    assert FindingKeys(a + b) == FindingKeys(a) + FindingKeys(b);
    DistinctConcat(FindingKeys(a), FindingKeys(b));
  }

  lemma {:induction false} KeysDistinctIff(det: Detector, files: seq<FileDiff>, path: Option<string>)
    ensures Distinct(FindingKeys(Scanned(det, files, path))) <==> NoSharedLine(det, files, path)
    decreases |files|
  {
    hide FileScanned, After, Distinct, FindingKeys;
    if files == [] {
      FewFindings();
    } else {
      var now, rest := After(path, files[0]), files[1..];
      var first := FileScanned(det, files[0], now);
      FileScannedDistinct(det, files[0], now);
      DistinctPieces(first, Scanned(det, rest, now));
      KeysDistinctIff(det, rest, now);
      CrossIff(det, files, path);
      SharedHead(det, files, path);
    }
  }

  lemma FewFindings()
    ensures Distinct(FindingKeys([]))
  {
  }

  /** The first file shares no key with the others exactly when it shares no line with any of them. */
  lemma CrossIff(det: Detector, files: seq<FileDiff>, path: Option<string>)
    requires files != []
    ensures SetOf(FindingKeys(FileScanned(det, files[0], After(path, files[0])))) !! SetOf(FindingKeys(Scanned(det, files[1..], After(path, files[0]))))
       <==> forall j: nat :: 1 <= j < |files| ==> !SharedLine(det, files, path, 0, j)
  {
    hide FileScanned, Scanned, After, FindingKeys, SharedLine;
    var now, rest := After(path, files[0]), files[1..];
    var x, y := FindingKeys(FileScanned(det, files[0], now)), FindingKeys(Scanned(det, rest, now));
    if j: nat :| 1 <= j < |files| && SharedLine(det, files, path, 0, j) {
      var key := SharedKey(det, files, path, j);
      assert key in SetOf(x) && key in SetOf(y);
    }
    if key :| key in SetOf(x) && key in SetOf(y) {
      var j := KeySharer(det, files, path, key);
      assert SharedLine(det, files, path, 0, j);
    }
  }

  lemma SameHitKey(det: Detector, f: FileDiff, g: FileDiff, path: string, k: nat) returns (key: Key)
    requires SameHit(det, f, g, k)
    ensures KeyHits(det, f, Some(path), key) && KeyHits(det, g, Some(path), key)
  {
    key := Key(path, k + 1, det.sha(LineAt(f, k)));
  }

  lemma SharedKey(det: Detector, files: seq<FileDiff>, path: Option<string>, j: nat) returns (key: Key)
    requires 1 <= j < |files| && SharedLine(det, files, path, 0, j)
    ensures key in SetOf(FindingKeys(FileScanned(det, files[0], After(path, files[0]))))
    ensures key in SetOf(FindingKeys(Scanned(det, files[1..], After(path, files[0]))))
  {
    hide FileScanned, Scanned, After, FindingKeys, KeyHits, SameHit;
    var now, rest := After(path, files[0]), files[1..];
    var k: nat :| SameHit(det, files[0], files[j], k);
    key := SameHitKey(det, files[0], files[j], now.value, k);
    FileKeyIff(det, files[0], now, key);
    assert KeyAt(det, rest, now, j - 1, key);
    ScannedKeysIff(det, rest, now, key);
  }

  lemma KeySharer(det: Detector, files: seq<FileDiff>, path: Option<string>, key: Key) returns (j: nat)
    requires files != []
    requires key in SetOf(FindingKeys(FileScanned(det, files[0], After(path, files[0]))))
    requires key in SetOf(FindingKeys(Scanned(det, files[1..], After(path, files[0]))))
    ensures 1 <= j < |files| && SharedLine(det, files, path, 0, j)
  {
    hide FileScanned, Scanned, After, FindingKeys, KeyHits, SameHit;
    var now, rest := After(path, files[0]), files[1..];
    FileKeyIff(det, files[0], now, key);
    ScannedKeysIff(det, rest, now, key);
    var i: nat :| KeyAt(det, rest, now, i, key);
    j := i + 1;
    BothHit(det, files[0], files[j], now, Believed(rest, now, i), key);
  }

  lemma BothHit(det: Detector, f: FileDiff, g: FileDiff, p: Option<string>, q: Option<string>, key: Key)
    requires KeyHits(det, f, p, key) && KeyHits(det, g, q, key)
    ensures p.Some? && p == q && key.line >= 1 && SameHit(det, f, g, key.line - 1)
  {
  }

  lemma SharedHead(det: Detector, files: seq<FileDiff>, path: Option<string>)
    requires files != []
    ensures NoSharedLine(det, files, path)
       <==> NoSharedLine(det, files[1..], After(path, files[0])) && forall j: nat :: 1 <= j < |files| ==> !SharedLine(det, files, path, 0, j)
  {
    hide Hits, After;
    var now, rest := After(path, files[0]), files[1..];
    forall i: nat, j: nat | 1 <= i < j < |files|
      ensures SharedLine(det, files, path, i, j) <==> SharedLine(det, rest, now, i - 1, j - 1)
    {
      assert rest[i - 1] == files[i] && rest[j - 1] == files[j];
    }
    if !NoSharedLine(det, rest, now) {
      var i: nat, j: nat :| i < j < |rest| && SharedLine(det, rest, now, i, j);
      assert SharedLine(det, files, path, i + 1, j + 1);
    }
  }

  /** A diff as the gate gets it: written as git writes it, with added lines the scanner reads. */
  ghost predicate Gated(files: seq<FileDiff>, ends: seq<string>) {
    && WellFormedDiff(files) && Written(Classify, Render(GIT, files), ends)
    && forall i :: 0 <= i < |files| && files[i].Text? ==> ReadableHunks(files[i].hunks)
  }

  function GitText(files: seq<FileDiff>, ends: seq<string>): GitOutput {
    if |ends| == |Render(GIT, files)| then Diff(JoinLines(Render(GIT, files), ends)) else GitFailed
  }

  /** What the gate compares with, for any names. */
  lemma GateFindings(det: Detector, files: seq<FileDiff>, ends: seq<string>)
    requires Gated(files, ends)
    ensures GitText(files, ends).Diff? && ScanText(det, GitText(files, ends).text) == Some(Scanned(det, files, None))
  {
    hide Quiet, WellFormedFile, ReadableHunks, ScanTextWith, JoinLines, Render, Scanned;
    ClassifyReads();
    LinesReadScanned(Classify, GIT, det, files, ends);
  }

  /** An open gate pairs records and findings one to one exactly when no two files believed under one path share a
      matching line number and digest; otherwise one record stands for several findings. */
  lemma {:induction false} OpenGateIsOneToOne(
    det: Detector, doc: Document, tree: map<string, string>, files: seq<FileDiff>, ends: seq<string>,
    records: seq<AllowRecord>, findings: seq<Finding>)
    requires Gated(files, ends) && Opens(det, doc, tree, GitText(files, ends), records, findings)
    ensures OneToOne(records, findings) <==> NoSharedLine(det, files, None)
    ensures NoSharedLine(det, files, None) || |records| < |findings|
  {
    hide Gated, NoSharedLine, Scanned, Distinct, Current, GitText, ScanText;
    GateFindings(det, files, ends);
    OpenGateCounts(det, doc, tree, GitText(files, ends), records, findings);
    KeysDistinctIff(det, files, None);
  }

  // ---------- matching lines no record stands for ----------

  /** Some file believed under the real path has the matching line at the same place. */
  ghost predicate Covered(det: Detector, files: seq<FileDiff>, j: nat, k: nat)
    requires j < |files| && files[j].Text?
  {
    exists i: nat :: i < |files| && Believed(files, None, i) == Some(files[j].path) && SameHit(det, files[i], files[j], k)
  }

  ghost predicate AllCovered(det: Detector, files: seq<FileDiff>) {
    forall j: nat, k: nat :: j < |files| && files[j].Text? && Hits(det, files[j], k) ==> Covered(det, files, j, k)
  }

  lemma {:induction false} DiffReportIff(det: Detector, files: seq<FileDiff>, f: Finding)
    ensures f in DiffReport(det, files) <==> exists j: nat :: j < |files| && f in FileReport(det, files[j])
  {
    hide FileReport;
    if files != [] {
      DiffReportIff(det, files[1..], f);
      if j: nat :| j < |files[1..]| && f in FileReport(det, files[1..][j]) {
        assert f in FileReport(det, files[j + 1]);
      }
      if j: nat :| j < |files| && f in FileReport(det, files[j]) {
        assert j > 0 ==> f in FileReport(det, files[1..][j - 1]);
      }
    }
  }

  lemma FileReportHits(det: Detector, f: FileDiff, g: Finding)
    requires f.Text? && g in FileReport(det, f)
    ensures g.path == f.path && g.line >= 1 && Hits(det, f, g.line - 1) && g.sha256 == det.sha(LineAt(f, g.line - 1))
  {
    hide Hits, LineAt;
    FileScannedHits(det, f, Some(f.path), KeyOf(g));
    assert g in FileScanned(det, f, Some(f.path));
  }

  lemma HitReported(det: Detector, f: FileDiff, k: nat)
    requires f.Text? && Hits(det, f, k)
    ensures exists g :: g in FileReport(det, f) && KeyOf(g) == Key(f.path, k + 1, det.sha(LineAt(f, k)))
  {
    FileScannedHits(det, f, Some(f.path), Key(f.path, k + 1, det.sha(LineAt(f, k))));
  }

  lemma CoveredIff(det: Detector, files: seq<FileDiff>, j: nat, k: nat)
    requires j < |files| && files[j].Text? && Hits(det, files[j], k)
    ensures Covered(det, files, j, k)
       <==> Key(files[j].path, k + 1, det.sha(LineAt(files[j], k))) in SetOf(FindingKeys(Scanned(det, files, None)))
  {
    hide Hits, Scanned, FindingKeys, Believed;
    var key := Key(files[j].path, k + 1, det.sha(LineAt(files[j], k)));
    ScannedKeysIff(det, files, None, key);
    if i: nat :| i < |files| && Believed(files, None, i) == Some(files[j].path) && SameHit(det, files[i], files[j], k) {
      assert KeyAt(det, files, None, i, key);
    }
    if i: nat :| KeyAt(det, files, None, i, key) {
      assert SameHit(det, files[i], files[j], k);
    }
  }

  /** Behind an open gate every matching added line has a record exactly when each is covered: reported, by its own file
      or by another, under its real path. */
  lemma {:induction false} OpenGateReviewsReportIff(
    det: Detector, doc: Document, tree: map<string, string>, files: seq<FileDiff>, ends: seq<string>,
    records: seq<AllowRecord>, findings: seq<Finding>)
    requires Gated(files, ends) && Opens(det, doc, tree, GitText(files, ends), records, findings)
    ensures (forall f :: f in DiffReport(det, files) ==> Reviewed(records, f)) <==> AllCovered(det, files)
  {
    hide Gated, Scanned, Hits, Covered, GitText, ScanText, RecordKeys, FindingKeys, DiffReport, FileReport, Current;
    GateFindings(det, files, ends);
    var keys := SetOf(FindingKeys(Scanned(det, files, None)));
    if AllCovered(det, files) {
      forall f | f in DiffReport(det, files)
        ensures Reviewed(records, f)
      {
        DiffReportIff(det, files, f);
        var j: nat :| j < |files| && f in FileReport(det, files[j]);
        TextlessReport(det, files[j]);
        FileReportHits(det, files[j], f);
        CoveredIff(det, files, j, f.line - 1);
        assert KeyOf(f) in keys;
        assert KeyOf(f) in SetOf(RecordKeys(records));
      }
    }
    if forall f :: f in DiffReport(det, files) ==> Reviewed(records, f) {
      forall j: nat, k: nat | j < |files| && files[j].Text? && Hits(det, files[j], k)
        ensures Covered(det, files, j, k)
      {
        HitReported(det, files[j], k);
        var g :| g in FileReport(det, files[j]) && KeyOf(g) == Key(files[j].path, k + 1, det.sha(LineAt(files[j], k)));
        DiffReportIff(det, files, g);
        assert Reviewed(records, g);
        assert KeyOf(g) in SetOf(RecordKeys(records));
        CoveredIff(det, files, j, k);
      }
    }
  }

  lemma TextlessReport(det: Detector, f: FileDiff)
    ensures f.Textless? ==> FileReport(det, f) == []
  {
  }

  /** What the scanner believes in, some plainly labelled file was called. */
  lemma {:induction false} BelievedFrom(files: seq<FileDiff>, path: Option<string>, i: nat)
    requires i < |files|
    ensures var now := Believed(files, path, i);
            now.None? || now == path || exists m :: 0 <= m < |files| && Labels(files[m], now.value)
    decreases |files|
  {
    if i == 0 {
      assert After(path, files[0]).Some? && After(path, files[0]) != path ==> Labels(files[0], After(path, files[0]).value);
    } else {
      var now := After(path, files[0]);
      BelievedFrom(files[1..], now, i - 1);
      assert now.Some? && now != path ==> Labels(files[0], now.value);
      assert forall m :: 0 <= m < |files[1..]| ==> files[1..][m] == files[m + 1];
    }
  }

  predicate Labels(f: FileDiff, name: string) {
    f.Text? && f.quoted.None? && name == f.path + TabAfter(f.path)
  }

  /** A name with a tab is quoted. */
  ghost predicate TabsQuoted(files: seq<FileDiff>) {
    forall i :: 0 <= i < |files| && files[i].Text? && files[i].quoted.None? ==> '\t' !in files[i].path
  }

  lemma {:induction false} BelievedPlain(files: seq<FileDiff>, path: Option<string>, j: nat)
    requires j < |files| && Changed(files[j]) && files[j].quoted.None? && ' ' !in files[j].path
    ensures Believed(files, path, j) == Some(files[j].path)
    decreases |files|
  {
    if j == 0 {
      assert files[0].path + "" == files[0].path;
    } else {
      BelievedPlain(files[1..], After(path, files[0]), j - 1);
    }
  }

  /** For every set of patterns all matching lines are covered, apart from lucky names, exactly when every file that
      gains lines has a name without blanks that git does not quote. */
  lemma {:induction false} CoveredIffPlain(files: seq<FileDiff>)
    requires WellFormedDiff(files) && NoLuckyNames(files, None) && TabsQuoted(files)
    ensures (forall det :: AllCovered(det, files)) <==> forall j :: 0 <= j < |files| ==> PlainName(files[j])
  {
    if forall j :: 0 <= j < |files| ==> PlainName(files[j]) {
      forall det, j: nat, k: nat | j < |files| && files[j].Text? && Hits(det, files[j], k)
        ensures Covered(det, files, j, k)
      {
        GainsLine(files[j], k);
        BelievedPlain(files, None, j);
        assert SameHit(det, files[j], files[j], k);
      }
    } else {
      var j: nat :| j < |files| && !PlainName(files[j]);
      var k := SomeAdded(files[j].hunks, files[j].tail);
      assert Hits(MATCH_ALL, files[j], k) by {
        assert MATCH_ALL.patterns[0](LineAt(files[j], k));
      }
      if Covered(MATCH_ALL, files, j, k) {
        var i: nat :| i < |files| && Believed(files, None, i) == Some(files[j].path) && SameHit(MATCH_ALL, files[i], files[j], k);
        BelievedFrom(files, None, i);
        var m :| 0 <= m < |files| && Labels(files[m], files[j].path);
        NotLabelled(files, m, j);
      }
      assert !AllCovered(MATCH_ALL, files);
    }
  }

  lemma NotLabelled(files: seq<FileDiff>, m: int, j: int)
    requires NoLuckyNames(files, None) && TabsQuoted(files)
    requires 0 <= m < |files| && 0 <= j < |files| && !PlainName(files[j])
    ensures !Labels(files[m], files[j].path)
  {
    var a, b := files[m], files[j];
    if a.Text? && a.quoted.None? && b.quoted.None? {
      if ' ' in a.path {
        assert (a.path + "\t")[|a.path|] == '\t';
      } else {
        assert a.path + "" == a.path;
      }
    }
  }

  /** A file with an added line gains lines and is not deleted. */
  lemma GainsLine(f: FileDiff, k: nat)
    requires WellFormedFile(f) && f.Text? && k < |LinesOf(f)| && LinesOf(f)[k].Fresh?
    ensures Changed(f) && !AddsNothing(f.hunks)
  {
    if AddsNothing(f.hunks) {
      AllKept(f.hunks, f.tail, k);
    }
  }

  lemma {:induction false} AllKept(hs: seq<Hunk>, tail: seq<string>, k: nat)
    requires AddsNothing(hs) && k < |NewFile(hs, tail)|
    ensures NewFile(hs, tail)[k].Kept?
  {
    if hs != [] && k >= |hs[0].keep| {
      AllKept(hs[1..], tail, k - |hs[0].keep|);
    }
  }

  lemma {:induction false} SomeAdded(hs: seq<Hunk>, tail: seq<string>) returns (k: nat)
    requires !AddsNothing(hs)
    ensures k < |NewFile(hs, tail)| && NewFile(hs, tail)[k].Fresh?
  {
    if hs[0].added != [] {
      k := |hs[0].keep|;
    } else {
      k := SomeAdded(hs[1..], tail);
      k := k + |hs[0].keep|;
    }
  }

  // ---------- two ways for the gate to open on unreviewed lines ----------

  lemma {:induction false} UnnamedFilesUnseen(det: Detector, files: seq<FileDiff>)
    requires forall i :: 0 <= i < |files| && files[i].Text? ==> files[i].deleted || files[i].quoted.Some?
    ensures Scanned(det, files, None) == []
  {
    if files != [] {
      assert After(None, files[0]) == None;
      UnnamedFilesUnseen(det, files[1..]);
    }
  }

  /** While no file has been named plainly, nothing is reported: a diff of files whose names git quotes passes with an
      empty allowlist, whatever it adds. */
  lemma {:induction false} QuotedFilesPass(det: Detector, doc: Document, tree: map<string, string>, files: seq<FileDiff>, ends: seq<string>)
    requires Gated(files, ends) && Parses(doc, [])
    requires forall i :: 0 <= i < |files| && files[i].Text? ==> files[i].deleted || files[i].quoted.Some?
    ensures Opens(det, doc, tree, GitText(files, ends), [], [])
  {
    hide Gated, Parses, ScanText, GitText;
    GateFindings(det, files, ends);
    UnnamedFilesUnseen(det, files);
    assert RecordKeys([]) == [] && FindingKeys([]) == [];
  }

  /** A plainly named file, then one whose name git quotes, both adding the line first. */
  function TwoFiles(path: string, name: string, printed: string, line: string): seq<FileDiff> {
    [OneHunk(path, [], [line]), FileDiff.Text([], name, Some(printed), false, [Hunk([], [], [line], "", false, false)], [])]
  }

  lemma TwoFilesScanned(det: Detector, path: string, name: string, printed: string, line: string)
    requires ' ' !in path
    ensures Scanned(det, TwoFiles(path, name, printed, line), None) == Hit(det, path, 1, line) + Hit(det, path, 1, line)
  {
    hide Hit;
    var files := TwoFiles(path, name, printed, line);
    var hs := files[0].hunks;
    assert path + "" == path;
    assert hs[1..] == [] && NewFile(hs, []) == [Fresh(line)] && [Fresh(line)][1..] == [];
    assert Report(det, path, [Fresh(line)], 1) == Hit(det, path, 1, line) + [];
    assert files[1..] == [files[1]] && files[1..][1..] == [];
    assert Scanned(det, files[1..], Some(path)) == Hit(det, path, 1, line) + [];
  }

  /** The line of the second file is reported under the first file's path, so the record of the first covers both. */
  lemma {:induction false} OneRecordCoversTwo(
    det: Detector, doc: Document, tree: map<string, string>, path: string, name: string, printed: string, line: string,
    ends: seq<string>, r: AllowRecord)
    requires Gated(TwoFiles(path, name, printed, line), ends) && ' ' !in path && FirstMatch(det.patterns, line).Some?
    requires Parses(doc, [r]) && Current(det.sha, tree, r) && RecordKeys([r]) == [Key(path, 1, det.sha(line))]
    ensures exists f :: Opens(det, doc, tree, GitText(TwoFiles(path, name, printed, line), ends), [r], [f, f])
  {
    hide Gated, Parses, ScanText, GitText, Current, FirstMatch, TwoFiles;
    GateFindings(det, TwoFiles(path, name, printed, line), ends);
    TwoFilesScanned(det, path, name, printed, line);
    var f := Hit(det, path, 1, line)[0];
    assert Hit(det, path, 1, line) + Hit(det, path, 1, line) == [f, f];
    assert FindingKeys([f, f]) == [KeyOf(f), KeyOf(f)] && KeyOf(f) == Key(path, 1, det.sha(line));
    assert SetOf(RecordKeys([r])) == SetOf(FindingKeys([f, f]));
    assert Opens(det, doc, tree, GitText(TwoFiles(path, name, printed, line), ends), [r], [f, f]);
  }
}
