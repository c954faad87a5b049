/** Diffs the scanner misreads, line by line: what it reports instead. */
module DiffPitfalls {
  import opened Options
  import opened Decimal
  import opened Lines
  import opened DiffScan
  import opened DiffRead
  import opened DiffExact

  // ---------- a separator inside a line ----------

  /** A file of one hunk at its start. */
  function OneHunk(path: string, removed: seq<string>, added: seq<string>): FileDiff {
    Text([], path, None, false, [Hunk([], removed, added, "", false, false)], [])
  }

  const FORM_FEED := "\U{000C}"

  function Broken(x: string, y: string): string {
    x + (FORM_FEED + y)
  }

  /** What git prints for some files. */
  function DiffText(files: seq<FileDiff>): string {
    Fed(Render(GIT, files))
  }

  lemma RangeFree(start: nat, count: nat)
    ensures SeparatorFree(Range(start, count))
  {
    ReadShow(start);
    ReadShow(count);
  }

  lemma HeaderFree(h: Hunk, o: nat, n: nat)
    requires SeparatorFree(h.section)
    ensures SeparatorFree(HunkHeader(h, o, n))
  {
    var old_, new_ := Range(At(o, |h.removed|), |h.removed|), Range(At(n, |h.added|), |h.added|);
    RangeFree(At(o, |h.removed|), |h.removed|);
    RangeFree(At(n, |h.added|), |h.added|);
  }

  lemma SplitAtFeed(x: string, rest: string)
    requires SeparatorFree(x)
    ensures SplitLines(x + (FORM_FEED + rest)) == [x] + SplitLines(rest)
  {
    var s := x + (FORM_FEED + rest);
    LineLengthStops(x, FORM_FEED + rest);
    assert s[..|x|] == x && s[|x|..] == FORM_FEED + rest;
    assert (FORM_FEED + rest)[1..] == rest;
  }

  lemma SplitBroken(mark: char, x: string, y: string)
    requires SeparatorFree([mark] + x) && SeparatorFree(y)
    ensures SplitLines([mark] + Broken(x, y) + "\n") == [[mark] + x, y]
  {
    hide SplitLines, SeparatorFree;
    assert [mark] + Broken(x, y) + "\n" == ([mark] + x) + (FORM_FEED + (y + "\n"));
    SplitAtFeed([mark] + x, y + "\n");
    SplitFed(y, []);
    FedOne(y);
    assert [y] + [] == [y];
    NothingToSplit();
  }

  /** The text of such a diff with one line in its hunk, as the scanner splits it. */
  lemma SplitOneLineHunk(label_: string, header: string, body: string)
    requires SeparatorFree(label_) && SeparatorFree(header)
    ensures SplitLines(Fed([label_, header, body])) == [label_, header] + SplitLines(body + "\n")
  {
    hide SplitLines, Fed;
    assert [label_, header, body] == [label_] + [header, body];
    assert [header, body] == [header] + [body];
    SplitFed(label_, [header, body]);
    SplitFed(header, [body]);
    FedOne(body);
  }

  lemma OneLineRendered(path: string, removed: seq<string>, added: seq<string>, body: string)
    requires (removed == [] && |added| == 1 && body == ['+'] + added[0]) || (added == [] && |removed| == 1 && body == ['-'] + removed[0])
    ensures
      var f := OneHunk(path, removed, added);
      Render(GIT, [f]) == [NewLabel(f), HunkHeader(f.hunks[0], 0, 0), body]
  {
    var f := OneHunk(path, removed, added);
    var h := f.hunks[0];
    hide HunkHeader, NewLabel;
    assert RenderHunk(GIT, h, 0, 0) == [HunkHeader(h, 0, 0), body];
    assert f.hunks[1..] == [];
    assert RenderHunks(GIT, f.hunks, 0, 0) == [HunkHeader(h, 0, 0), body] + [];
    assert RenderFile(GIT, f) == [] + ([NewLabel(f)] + [HunkHeader(h, 0, 0), body]);
    assert [f][1..] == [];
  }

  /** The scan of such a diff is the scan of what its one line is split into, behind the label and the header. */
  lemma OneLineScanned(det: Detector, path: string, removed: seq<string>, added: seq<string>, body: string)
    requires SeparatorFree(path) && ' ' !in path
    requires (removed == [] && |added| == 1 && body == ['+'] + added[0]) || (added == [] && |removed| == 1 && body == ['-'] + removed[0])
    ensures
      ScanText(det, DiffText([OneHunk(path, removed, added)]))
      == match ScanKinds(det, Scan(Some(path), Some(|added|), []), Kinds(Classify, SplitLines(body + "\n")))
         case None => None
         case Some(st) => Some(st.findings)
  {
    hide HunkHeader, NewLabel, Classify, SplitLines, Fed, Render;
    var f := OneHunk(path, removed, added);
    var h := f.hunks[0];
    OneLineRendered(path, removed, added, body);
    LabelSeparatorFree(f);
    HeaderFree(h, 0, 0);
    SplitOneLineHunk(NewLabel(f), HunkHeader(h, 0, 0), body);
    LabelClassified(f);
    assert path + "" == path;
    HeaderClassified(h, 0, 0);
    var front, kinds := [NewPath(path), HunkAt(Some(|added|))], Kinds(Classify, SplitLines(body + "\n"));
    KindsConcat(Classify, [NewLabel(f), HunkHeader(h, 0, 0)], SplitLines(body + "\n"));
    assert Kinds(Classify, [NewLabel(f), HunkHeader(h, 0, 0)]) == front;
    ScanConcat(det, START, front, kinds);
    assert front[1..] == [HunkAt(Some(|added|))] && front[1..][1..] == [];
  }

  /** What stands behind a separator in an added line is never shown to the patterns: only the first part is, under the
      right path and number. */
  lemma {:induction false} SeparatorHidesTail(det: Detector, path: string, x: string, y: string)
    requires SeparatorFree(path) && ' ' !in path
    requires SeparatorFree(x) && !("++" <= x) && SeparatorFree(y) && Inert(y)
    ensures ScanText(det, DiffText([OneHunk(path, [], [Broken(x, y)])])) == Some(Hit(det, path, 1, x))
    ensures DiffReport(det, [OneHunk(path, [], [Broken(x, y)])]) == Hit(det, path, 1, Broken(x, y))
  {
    hide Classify, SplitLines, ScanText, Hit, DiffText;
    var body := ['+'] + Broken(x, y);
    SplitBroken('+', x, y);
    OneLineScanned(det, path, [], [Broken(x, y)], body);
    AddedClassified(x);
    InertClassified(y);
    var st, kinds := Scan(Some(path), Some(1), []), Kinds(Classify, [['+'] + x, y]);
    assert kinds == [Plus(x), Other];
    assert kinds[1..] == [Other] && kinds[1..][1..] == [];
    ScanTwo(det, st, Plus(x), Other);
    assert [] + Hit(det, path, 1, x) == Hit(det, path, 1, x);
    OneLineReport(det, path, Broken(x, y));
  }

  lemma ScanTwo(det: Detector, st: Scan, a: Kind, b: Kind)
    ensures ScanKinds(det, st, [a, b])
         == match Advance(det, st, a) case None => None case Some(next) => Advance(det, next, b)
  {
    assert [a, b][1..] == [b] && [b][1..] == [];
    var next := Advance(det, st, a);
    if next.Some? {
      assert ScanKinds(det, next.value, [b]) == Advance(det, next.value, b);
    }
  }

  lemma OneLineReport(det: Detector, path: string, line: string)
    ensures DiffReport(det, [OneHunk(path, [], [line])]) == Hit(det, path, 1, line)
  {
    hide Hit;
    var f := OneHunk(path, [], [line]);
    assert f.hunks[1..] == [] && [f][1..] == [];
    assert NewFile(f.hunks, []) == [Fresh(line)];
    assert [Fresh(line)][1..] == [];
    assert Report(det, path, [Fresh(line)], 1) == Hit(det, path, 1, line) + [];
    assert FileReport(det, f) == Hit(det, path, 1, line);
    assert DiffReport(det, [f][1..]) == [];
  }

  /** A separator in a removed line can forge a finding: what stands behind it and a plus sign is reported as added,
      although the file gains nothing. */
  lemma SeparatorForgesLine(det: Detector, path: string, x: string, y: string)
    requires SeparatorFree(path) && ' ' !in path
    requires SeparatorFree(x) && SeparatorFree(y) && !("++" <= y)
    ensures ScanText(det, DiffText([OneHunk(path, [Broken(x, ['+'] + y)], [])])) == Some(Hit(det, path, 0, y))
    ensures DiffReport(det, [OneHunk(path, [Broken(x, ['+'] + y)], [])]) == []
  {
    hide Classify, SplitLines, ScanText, Hit, DiffText;
    var body := ['-'] + Broken(x, ['+'] + y);
    SplitBroken('-', x, ['+'] + y);
    OneLineScanned(det, path, [Broken(x, ['+'] + y)], [], body);
    AddedClassified(y);
    InertClassified(['-'] + x);
    var st, kinds := Scan(Some(path), Some(0), []), Kinds(Classify, [['-'] + x, ['+'] + y]);
    assert kinds == [Other, Plus(y)];
    ScanTwo(det, st, Other, Plus(y));
    assert [] + Hit(det, path, 0, y) == Hit(det, path, 0, y);
    var f := OneHunk(path, [Broken(x, ['+'] + y)], []);
    assert f.hunks[1..] == [] && [f][1..] == [];
    assert NewFile(f.hunks, []) == [];
  }
}
