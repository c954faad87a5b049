/** The scanner as a whole: exactly which diffs it reads right from git's text, what a finding then points at, and the
    loop that does the work. */
module DiffExact {
  import opened Options
  import opened Lines
  import opened DiffScan
  import opened DiffRead
  import opened DiffRoundTrip
  import opened DiffUnreadable

  /** `scan_added_lines`, from git's output as one string, with any classifier of single lines. */
  function ScanTextWith(classify: string -> Kind, det: Detector, diff: string): Option<seq<Finding>> {
    ScanDiff(classify, det, SplitLines(diff))
  }

  function ScanText(det: Detector, diff: string): Option<seq<Finding>> {
    ScanTextWith(Classify, det, diff)
  }

  /** The printed diff as text, each line with its own end. Lines other than added ones may hold separators as long as
      what is cut off says nothing to the scanner; nothing is asked of added lines. */
  ghost predicate Written(classify: string -> Kind, lines: seq<string>, ends: seq<string>) {
    && |ends| == |lines|
    && forall i :: 0 <= i < |ends| ==> IsLineEnd(ends[i]) && ("+" <= lines[i] || Quiet(classify, lines[i], ends[i]))
  }

  ghost predicate PlusLinesFree(lines: seq<string>) {
    forall i :: 0 <= i < |lines| && "+" <= lines[i] ==> SeparatorFree(lines[i])
  }

  lemma HunkPlusFree(classify: string -> Kind, p: Printer, h: Hunk, o: nat, n: nat)
    requires Reads(classify, p)
    requires forall k :: 0 <= k < |h.added| ==> ReadableLine(h.added[k])
    ensures PlusLinesFree(RenderHunk(p, h, o, n))
  {
    var removed, added := Prefixed('-', h.removed) + Mark(p, h.oldMark), Prefixed('+', h.added) + Mark(p, h.newMark);
    forall i | 0 <= i < |added| && "+" <= added[i]
      ensures SeparatorFree(added[i])
    {
    }
  }

  lemma {:induction false} HunksPlusFree(classify: string -> Kind, p: Printer, hs: seq<Hunk>, o: nat, n: nat)
    requires Reads(classify, p) && ReadableHunks(hs)
    ensures PlusLinesFree(RenderHunks(p, hs, o, n))
  {
    hide RenderHunk, Reads, ReadableLine;
    if hs != [] {
      var o', n' := o + |hs[0].keep| + |hs[0].removed|, n + |hs[0].keep| + |hs[0].added|;
      HunkPlusFree(classify, p, hs[0], o, n);
      assert forall i :: 0 <= i < |hs[1..]| ==> hs[1..][i] == hs[i + 1];
      HunksPlusFree(classify, p, hs[1..], o', n');
    }
  }

  lemma FilePlusFree(classify: string -> Kind, p: Printer, f: FileDiff)
    requires Reads(classify, p) && WellFormedFile(f) && (f.Text? ==> ReadableHunks(f.hunks))
    ensures PlusLinesFree(RenderFile(p, f))
  {
    if f.Text? {
      HunksPlusFree(classify, p, f.hunks, 0, 0);
    }
  }

  /** In a diff with readable added lines, `splitlines` leaves every line that starts with `+` whole. */
  lemma {:induction false} RenderPlusFree(classify: string -> Kind, p: Printer, files: seq<FileDiff>)
    requires Reads(classify, p) && WellFormedDiff(files)
    requires forall i :: 0 <= i < |files| && files[i].Text? ==> ReadableHunks(files[i].hunks)
    ensures PlusLinesFree(Render(p, files))
  {
    hide Reads, ReadableHunks, RenderFile;
    if files != [] {
      FilePlusFree(classify, p, files[0]);
      assert forall i :: 0 <= i < |files[1..]| ==> files[1..][i] == files[i + 1];
      RenderPlusFree(classify, p, files[1..]);
    }
  }

  lemma ReadableNothingPlusPlus(files: seq<FileDiff>)
    requires forall i :: 0 <= i < |files| && files[i].Text? ==> ReadableHunks(files[i].hunks)
    ensures NothingStartsPlusPlus(files)
  {
    forall i, j, k | 0 <= i < |files| && files[i].Text? && 0 <= j < |files[i].hunks| && 0 <= k < |files[i].hunks[j].added|
      ensures !("++" <= files[i].hunks[j].added[k])
    {
      assert ReadableLine(files[i].hunks[j].added[k]);
    }
  }

  /** With readable added lines the scanner reports them all, under the paths it believes in. */
  lemma LinesReadScanned(classify: string -> Kind, p: Printer, det: Detector, files: seq<FileDiff>, ends: seq<string>)
    requires Reads(classify, p) && WellFormedDiff(files) && Written(classify, Render(p, files), ends)
    requires forall i :: 0 <= i < |files| && files[i].Text? ==> ReadableHunks(files[i].hunks)
    ensures ScanTextWith(classify, det, JoinLines(Render(p, files), ends)) == Some(Scanned(det, files, None))
  {
    hide Reads, Quiet, ReadableHunks, Scanned, WellFormedFile;
    var lines := Render(p, files);
    RenderPlusFree(classify, p, files);
    ReadableNothingPlusPlus(files);
    forall i | 0 <= i < |ends|
      ensures Quiet(classify, lines[i], ends[i])
    {
      if "+" <= lines[i] {
        WholeLineQuiet(classify, lines[i], ends[i]);
      }
    }
    TextScannedAs(classify, p, det, files, ends);
  }

  /** From git's output as text: for every set of patterns the scanner reports exactly what it should, in order, if and
      only if every added line is readable and the names of the files that gain lines are read. */
  lemma ScannerExact(classify: string -> Kind, p: Printer, files: seq<FileDiff>, ends: seq<string>)
    requires Reads(classify, p) && WellFormedDiff(files) && Written(classify, Render(p, files), ends)
    ensures (forall det :: ScanTextWith(classify, det, JoinLines(Render(p, files), ends)) == Some(DiffReport(det, files)))
       <==> Readable(files)
  {
    hide Reads, Quiet, ReadableHunks, NamesRead, WellFormedFile, ScanTextWith, Scanned, Render, JoinLines;
    if j :| 0 <= j < |files| && files[j].Text? && !ReadableHunks(files[j].hunks) {
      LineMisread(classify, p, files, JoinLines(Render(p, files), ends), j);
    } else {
      forall det
        ensures ScanTextWith(classify, det, JoinLines(Render(p, files), ends)) == Some(Scanned(det, files, None))
        ensures NamesRead(files, None) ==> Scanned(det, files, None) == DiffReport(det, files)
      {
        LinesReadScanned(classify, p, det, files, ends);
        if NamesRead(files, None) {
          NamesReadScanned(det, files, None);
        }
      }
      ScannedIffNamesRead(files, None);
    }
  }

  lemma LineMisread(classify: string -> Kind, p: Printer, files: seq<FileDiff>, text: string, j: nat)
    requires Reads(classify, p) && j < |files| && files[j].Text? && !ReadableHunks(files[j].hunks)
    ensures ScanTextWith(classify, MATCH_ALL, text) != Some(DiffReport(MATCH_ALL, files))
  {
    UnreadableLineMisread(classify, p, files, text, j);
  }

  /** The same for the scanner's own prefixes and regular expression, and the lines git prints. */
  lemma GitScannerExact(files: seq<FileDiff>, ends: seq<string>)
    requires WellFormedDiff(files) && Written(Classify, Render(GIT, files), ends)
    ensures (forall det :: ScanText(det, JoinLines(Render(GIT, files), ends)) == Some(DiffReport(det, files))) <==> Readable(files)
  {
    hide Quiet, WellFormedFile, Readable, ScanTextWith, JoinLines, Render;
    ClassifyReads();
    ScannerExact(Classify, GIT, files, ends);
  }

  // ---------- what a finding points at ----------

  lemma {:induction false} FirstMatchIff(patterns: seq<string -> bool>, content: string, k: nat)
    ensures FirstMatch(patterns, content) == Some(k)
      <==> k < |patterns| && patterns[k](content) && forall j :: 0 <= j < k ==> !patterns[j](content)
  {
    if patterns != [] && !patterns[0](content) {
      if k > 0 {
        FirstMatchIff(patterns[1..], content, k - 1);
        assert forall j :: 1 <= j < k && j < |patterns| ==> patterns[j] == patterns[1..][j - 1];
      }
    }
  }

  /** Line `k` of the new file was added, matches, and is what `f` says. */
  ghost predicate PointsAt(det: Detector, path: string, lines: seq<NewLine>, at: nat, k: nat, f: Finding) {
    && k < |lines|
    && lines[k].Fresh?
    && FirstMatch(det.patterns, lines[k].text) == Some(f.patternIndex)
    && f.path == path
    && f.line == at + k
    && f.sha256 == det.sha(lines[k].text)
  }

  /** The report holds a finding exactly when it points at an added, matching line of the new file. */
  lemma {:induction false} ReportIff(det: Detector, path: string, lines: seq<NewLine>, at: nat, f: Finding)
    ensures f in Report(det, path, lines, at) <==> exists k: nat :: PointsAt(det, path, lines, at, k, f)
  {
    if lines != [] {
      var rest, next := lines[1..], at + 1;
      ReportIff(det, path, rest, next, f);
      var head := if lines[0].Fresh? then Hit(det, path, at, lines[0].text) else [];
      assert f in head <==> PointsAt(det, path, lines, at, 0, f);
      if k: nat :| PointsAt(det, path, rest, next, k, f) {
        assert PointsAt(det, path, lines, at, k + 1, f);
      }
      if k: nat :| PointsAt(det, path, lines, at, k, f) {
        assert k > 0 ==> PointsAt(det, path, rest, next, k - 1, f);
      }
    }
  }

  /** Findings about one file come in the order of their lines, one per line. */
  lemma {:induction false} ReportAscends(det: Detector, path: string, lines: seq<NewLine>, at: nat)
    ensures forall i :: 0 <= i < |Report(det, path, lines, at)| ==> at <= Report(det, path, lines, at)[i].line
    ensures forall i, j :: 0 <= i < j < |Report(det, path, lines, at)| ==>
              Report(det, path, lines, at)[i].line < Report(det, path, lines, at)[j].line
  {
    if lines != [] {
      ReportAscends(det, path, lines[1..], at + 1);
    }
  }

  // ---------- the loop ----------

  /** The scan loop. `None` stands for the error raised on a hunk header without a position. */
  method ScanAddedLines(det: Detector, diff: string) returns (result: Option<seq<Finding>>)
    ensures result == ScanText(det, diff)
  {
    var lines := SplitLines(diff);
    var findings: seq<Finding> := [];
    var currentPath: Option<string> := None;
    var newLine: Option<nat> := None;
    ghost var kinds := Kinds(Classify, lines);
    for i := 0 to |lines|
      invariant ScanKinds(det, Scan(currentPath, newLine, findings), kinds[i..]) == ScanKinds(det, START, kinds)
    {
      var raw := lines[i];
      ghost var st := Scan(currentPath, newLine, findings);
      assert kinds[i..][0] == Classify(raw) && kinds[i..][1..] == kinds[i + 1..];
      if "+++ b/" <= raw {
        currentPath := Some(raw[6..]);
      } else if "+++ /dev/null" <= raw {
        currentPath := None;
      } else if "@@" <= raw {
        var start := HunkStart(raw);
        if start.None? {
          return None;
        }
        newLine := start;
      } else if currentPath.None? || newLine.None? {
      } else if "+" <= raw && !("+++" <= raw) {
        var content := raw[1..];
        var hit := FindFirst(det.patterns, content);
        if hit.Some? {
          findings := findings + [Finding(currentPath.value, newLine.value, det.sha(content), hit.value)];
        }
        newLine := Some(newLine.value + 1);
        assert findings == st.findings + Hit(det, st.path.value, st.line.value, content);
      } else if " " <= raw {
        newLine := Some(newLine.value + 1);
      }
      assert Advance(det, st, Classify(raw)) == Some(Scan(currentPath, newLine, findings));
    }
    return Some(findings);
  }

  /** The inner loop over the patterns, left at the first that finds something. */
  method FindFirst(patterns: seq<string -> bool>, content: string) returns (hit: Option<nat>)
    ensures hit.Some? ==> hit.value < |patterns| && patterns[hit.value](content)
    ensures forall j :: 0 <= j < (if hit.Some? then hit.value else |patterns|) ==> !patterns[j](content)
    ensures hit == FirstMatch(patterns, content)
  {
    for index := 0 to |patterns|
      invariant forall j :: 0 <= j < index ==> !patterns[j](content)
    {
      if patterns[index](content) {
        FirstMatchIff(patterns, content, index);
        return Some(index);
      }
    }
    hit := None;
    var found := FirstMatch(patterns, content);
    if found.Some? {
      FirstMatchIff(patterns, content, found.value);
    }
  }
}
