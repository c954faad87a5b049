/** The diff scanner as a line machine, the diffs that `git diff --unified=0` prints, and exactly when the
    scanner reads such a diff back correctly. */
module DiffScan {
  import opened Options
  import opened Decimal
  import opened Lines

  // ---------- the scanner ----------

  /** The compiled patterns, each by what it finds, and the hex digest of a line. */
  datatype Detector = Detector(patterns: seq<string -> bool>, sha: string -> string)

  datatype Finding = Finding(path: string, line: nat, sha256: string, patternIndex: nat)

  datatype Scan = Scan(path: Option<string>, line: Option<nat>, findings: seq<Finding>)

  const START := Scan(None, None, [])

  /** The index of the first pattern that finds something. */
  function FirstMatch(patterns: seq<string -> bool>, content: string): Option<nat> {
    if patterns == [] then None
    else if patterns[0](content) then Some(0)
    else
      match FirstMatch(patterns[1..], content)
      case None => None
      case Some(k) => Some(k + 1)
  }

  /** What the scanner makes of one raw line. */
  datatype Kind =
    | NewPath(path: string)
    | NoPath
    | HunkAt(start: Option<nat>)
    | Plus(content: string)
    | Context
    | Other

  /** `re.search(r"\+(\d+)(?:,(\d+))?", line)`, first group. */
  function HunkStart(s: string): Option<nat> {
    if |s| < 2 then None
    else if s[0] == '+' && IsDigit(s[1]) then Some(Read(s[1..][..DigitRun(s[1..])]))
    else HunkStart(s[1..])
  }

  function Classify(raw: string): Kind {
    if "+++ b/" <= raw then NewPath(raw[6..])
    else if "+++ /dev/null" <= raw then NoPath
    else if "@@" <= raw then HunkAt(HunkStart(raw))
    else if "+" <= raw && !("+++" <= raw) then Plus(raw[1..])
    else if " " <= raw then Context
    else Other
  }

  function Hit(det: Detector, path: string, line: nat, content: string): seq<Finding> {
    match FirstMatch(det.patterns, content)
    case None => []
    case Some(k) => [Finding(path, line, det.sha(content), k)]
  }

  /** One turn of the loop; `None` is the error for a hunk header without a position. */
  function Advance(det: Detector, st: Scan, kind: Kind): Option<Scan> {
    if kind.NewPath? then Some(st.(path := Some(kind.path)))
    else if kind.NoPath? then Some(st.(path := None))
    else if kind.HunkAt? then
      if kind.start.None? then None else Some(st.(line := kind.start))
    else if st.path.None? || st.line.None? then Some(st)
    else if kind.Plus? then
      Some(st.(line := Some(st.line.value + 1), findings := st.findings + Hit(det, st.path.value, st.line.value, kind.content)))
    else if kind.Context? then Some(st.(line := Some(st.line.value + 1)))
    else Some(st)
  }

  function ScanKinds(det: Detector, st: Scan, kinds: seq<Kind>): Option<Scan>
    decreases |kinds|
  {
    if kinds == [] then Some(st)
    else
      match Advance(det, st, kinds[0])
      case None => None
      case Some(next) => ScanKinds(det, next, kinds[1..])
  }

  function Kinds(classify: string -> Kind, lines: seq<string>): seq<Kind> {
    seq(|lines|, i requires 0 <= i < |lines| => classify(lines[i]))
  }

  /** The findings of a whole diff; `None` is the error. */
  function ScanDiff(classify: string -> Kind, det: Detector, lines: seq<string>): Option<seq<Finding>> {
    match ScanKinds(det, START, Kinds(classify, lines))
    case None => None
    case Some(st) => Some(st.findings)
  }

  lemma {:induction false} ScanConcat(det: Detector, st: Scan, a: seq<Kind>, b: seq<Kind>)
    ensures ScanKinds(det, st, a + b)
         == match ScanKinds(det, st, a) case None => None case Some(next) => ScanKinds(det, next, b)
    decreases |a|
  {
    if a == [] {
      assert a + b == b;
    } else {
      assert (a + b)[1..] == a[1..] + b;
      match Advance(det, st, a[0])
      case None =>
      case Some(next) => ScanConcat(det, next, a[1..], b);
    }
  }

  // ---------- diffs ----------

  /** A stretch of unchanged lines, then lines replaced by others. The marks say that git notes a missing
      line end at the end of the old or the new file. */
  datatype Hunk = Hunk(
    keep: seq<string>, removed: seq<string>, added: seq<string>, section: string, oldMark: bool, newMark: bool)

  /** A change to one file. `preamble` holds the lines before the `+++` line. `Textless` changes (binary files,
      renames, mode changes) have nothing else. `quoted` is what git prints between quotes when it quotes the name. */
  datatype FileDiff =
    | Text(preamble: seq<string>, path: string, quoted: Option<string>, deleted: bool, hunks: seq<Hunk>, tail: seq<string>)
    | Textless(preamble: seq<string>)

  function Range(start: nat, count: nat): string {
    if count == 1 then Show(start) else Show(start) + ("," + Show(count))
  }

  /** The position git prints: of the first line, or of the line before when there is none. */
  function At(before: nat, count: nat): nat {
    if count == 0 then before else before + 1
  }

  function HunkHeader(h: Hunk, o: nat, n: nat): string {
    "@@ -" + (Range(At(o, |h.removed|), |h.removed|) + (" +" + (Range(At(n, |h.added|), |h.added|) + (" @@" + h.section))))
  }

  function Prefixed(c: char, lines: seq<string>): seq<string> {
    seq(|lines|, i requires 0 <= i < |lines| => [c] + lines[i])
  }

  /** Behind a name with a blank git prints a tab. */
  function TabAfter(name: string): string {
    if ' ' in name then "\t" else ""
  }

  function NewLabel(f: FileDiff): string {
    if f.Textless? then ""
    else if f.deleted then "+++ /dev/null"
    else if f.quoted.Some? then "+++ \"b/" + (f.quoted.value + ("\"" + TabAfter(f.quoted.value)))
    else "+++ b/" + (f.path + TabAfter(f.path))
  }

  /** The lines a diff printer composes: hunk headers, the line that names the new file, and the note about
      a missing line end. */
  datatype Printer = Printer(header: (Hunk, nat, nat) -> string, newLabel: FileDiff -> string, noLineEnd: string)

  const GIT := Printer((h: Hunk, o: nat, n: nat) => HunkHeader(h, o, n), f => NewLabel(f), "\\ No newline at end of file")

  function Mark(p: Printer, b: bool): seq<string> {
    if b then [p.noLineEnd] else []
  }

  /** The lines of a hunk behind `o` old and `n` new lines. */
  function RenderHunk(p: Printer, h: Hunk, o: nat, n: nat): seq<string> {
    [p.header(h, o + |h.keep|, n + |h.keep|)]
    + (Prefixed('-', h.removed) + Mark(p, h.oldMark))
    + (Prefixed('+', h.added) + Mark(p, h.newMark))
  }

  function RenderHunks(p: Printer, hs: seq<Hunk>, o: nat, n: nat): seq<string> {
    if hs == [] then []
    else
      RenderHunk(p, hs[0], o, n)
      + RenderHunks(p, hs[1..], o + |hs[0].keep| + |hs[0].removed|, n + |hs[0].keep| + |hs[0].added|)
  }

  function RenderFile(p: Printer, f: FileDiff): seq<string> {
    match f
    case Text(preamble, _, _, _, hunks, _) => preamble + ([p.newLabel(f)] + RenderHunks(p, hunks, 0, 0))
    case Textless(preamble) => preamble
  }

  function Render(p: Printer, files: seq<FileDiff>): seq<string> {
    if files == [] then [] else RenderFile(p, files[0]) + Render(p, files[1..])
  }

  // ---------- the files behind a diff ----------

  datatype NewLine = Kept(text: string) | Fresh(text: string)

  function KeptLines(lines: seq<string>): seq<NewLine> {
    seq(|lines|, i requires 0 <= i < |lines| => Kept(lines[i]))
  }

  function FreshLines(lines: seq<string>): seq<NewLine> {
    seq(|lines|, i requires 0 <= i < |lines| => Fresh(lines[i]))
  }

  /** The new file, each line marked by whether the diff added it. */
  function NewFile(hs: seq<Hunk>, tail: seq<string>): seq<NewLine> {
    if hs == [] then KeptLines(tail)
    else KeptLines(hs[0].keep) + (FreshLines(hs[0].added) + NewFile(hs[1..], tail))
  }

  /** What should be reported about a file whose first line here has number `at`: its added lines that
      match a pattern, in order, under their numbers in the new file. */
  function Report(det: Detector, path: string, lines: seq<NewLine>, at: nat): seq<Finding> {
    if lines == [] then []
    else
      (if lines[0].Fresh? then Hit(det, path, at, lines[0].text) else [])
      + Report(det, path, lines[1..], at + 1)
  }

  function FileReport(det: Detector, f: FileDiff): seq<Finding> {
    match f
    case Text(_, path, _, _, hunks, tail) => Report(det, path, NewFile(hunks, tail), 1)
    case Textless(_) => []
  }

  function DiffReport(det: Detector, files: seq<FileDiff>): seq<Finding> {
    if files == [] then [] else FileReport(det, files[0]) + DiffReport(det, files[1..])
  }

  // ---------- what git guarantees, and what the scanner needs on top ----------

  /** The lines around the hunks: none of them starts like a hunk line. */
  predicate Inert(raw: string) {
    raw == "" || (raw[0] != '+' && raw[0] != ' ' && raw[0] != '@')
  }

  /** Deletions leave an empty file, and names are printed without line separators: git quotes control
      characters and, unless told otherwise, everything beyond ASCII. */
  ghost predicate WellFormedFile(f: FileDiff) {
    && (forall i :: 0 <= i < |f.preamble| ==> Inert(f.preamble[i]))
    && (f.Text? && f.deleted ==> NewFile(f.hunks, f.tail) == [])
    && (f.Text? ==> SeparatorFree(if f.quoted.Some? then f.quoted.value else f.path))
  }

  ghost predicate WellFormedDiff(files: seq<FileDiff>) {
    forall i :: 0 <= i < |files| ==> WellFormedFile(files[i])
  }

  predicate NoPlusPlus(lines: seq<string>) {
    forall i :: 0 <= i < |lines| ==> !("++" <= lines[i])
  }

  predicate AddsNoPlusPlus(hs: seq<Hunk>) {
    forall i :: 0 <= i < |hs| ==> NoPlusPlus(hs[i].added)
  }

  predicate AddsNothing(hs: seq<Hunk>) {
    forall i :: 0 <= i < |hs| ==> hs[i].added == []
  }

  /** An added line the scanner takes as it is: it does not start with `++`, and `splitlines` leaves it whole. */
  predicate ReadableLine(line: string) {
    !("++" <= line) && SeparatorFree(line)
  }

  predicate ReadableHunks(hs: seq<Hunk>) {
    forall i, k :: 0 <= i < |hs| && 0 <= k < |hs[i].added| ==> ReadableLine(hs[i].added[k])
  }

  /** The path the scanner believes in behind a file: a quoted name leaves the path of the file before, and a tab
      printed behind a name is taken for a part of it. */
  function After(path: Option<string>, f: FileDiff): Option<string> {
    if f.Textless? then path
    else if f.deleted then None
    else if f.quoted.Some? then path
    else Some(f.path + TabAfter(f.path))
  }

  /** Where a file gains lines, the scanner believes in its path. */
  predicate NamesRead(files: seq<FileDiff>, path: Option<string>) {
    files != [] ==>
      && (files[0].Text? && !AddsNothing(files[0].hunks) ==> After(path, files[0]) == Some(files[0].path))
      && NamesRead(files[1..], After(path, files[0]))
  }

  predicate Readable(files: seq<FileDiff>) {
    && (forall i :: 0 <= i < |files| && files[i].Text? ==> ReadableHunks(files[i].hunks))
    && NamesRead(files, None)
  }
}
