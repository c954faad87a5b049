/** Lines that `splitlines` cuts off other printed lines: where they read as added lines or say nothing, exactly when the
    scanner is still right. */
module DiffForged {
  import opened Options
  import opened Lines
  import opened DiffScan
  import opened DiffRead
  import opened DiffRoundTrip
  import opened DiffUnreadable
  import opened DiffExact

  /** What is cut off a written line. */
  function CutOff(classify: string -> Kind, line: string, end: string): seq<Kind> {
    var kinds := Kinds(classify, SplitLines(line + end));
    if kinds == [] then [] else kinds[1..]
  }

  predicate PlusOrOther(kinds: seq<Kind>) {
    forall i :: 0 <= i < |kinds| ==> kinds[i].Plus? || kinds[i] == Other
  }

  /** The line is read as it is, and what is cut off reads as added lines or says nothing. */
  ghost predicate Loose(classify: string -> Kind, line: string, end: string) {
    && Kinds(classify, SplitLines(line + end)) == [classify(line)] + CutOff(classify, line, end)
    && PlusOrOther(CutOff(classify, line, end))
  }

  /** As `Written`, but what is cut off may also read as added lines. */
  ghost predicate LooselyWritten(classify: string -> Kind, lines: seq<string>, ends: seq<string>) {
    && |ends| == |lines|
    && forall i :: 0 <= i < |ends| ==> IsLineEnd(ends[i]) && ("+" <= lines[i] || Loose(classify, lines[i], ends[i]))
  }

  // ---------- forged lines ----------

  function CountPlus(kinds: seq<Kind>): nat {
    if kinds == [] then 0 else (if kinds[0].Plus? then 1 else 0) + CountPlus(kinds[1..])
  }

  function Believing(path: Option<string>, k: Kind): Option<string> {
    match k
    case NewPath(p) => Some(p)
    case NoPath => None
    case _ => path
  }

  /** The added lines cut off other lines while the scanner believes in a path and has a line number. */
  function Forged(classify: string -> Kind, lines: seq<string>, ends: seq<string>, path: Option<string>, numbered: bool): nat
    requires |lines| == |ends|
  {
    if lines == [] then 0
    else
      var now, counts := Believing(path, classify(lines[0])), numbered || classify(lines[0]).HunkAt?;
      (if now.Some? && counts then CountPlus(CutOff(classify, lines[0], ends[0])) else 0)
      + Forged(classify, lines[1..], ends[1..], now, counts)
  }

  // ---------- scanning them ----------

  lemma {:induction false} ScanCutOff(st: Scan, kinds: seq<Kind>)
    requires PlusOrOther(kinds)
    ensures
      var scanned := ScanKinds(MATCH_ALL, st, kinds);
      && scanned.Some? && scanned.value.path == st.path && scanned.value.line.Some? == st.line.Some?
      && |scanned.value.findings| == |st.findings| + if st.path.Some? && st.line.Some? then CountPlus(kinds) else 0
    decreases |kinds|
  {
    if kinds != [] {
      var next := Advance(MATCH_ALL, st, kinds[0]).value;
      if kinds[0].Plus? {
        assert MATCH_ALL.patterns[0](kinds[0].content);
      }
      assert PlusOrOther(kinds[1..]);
      ScanCutOff(next, kinds[1..]);
    }
  }

  lemma {:induction false} ScanHarmless(det: Detector, st: Scan, kinds: seq<Kind>)
    requires PlusOrOther(kinds)
    requires st.path.None? || st.line.None? || CountPlus(kinds) == 0
    ensures ScanKinds(det, st, kinds) == Some(st)
    decreases |kinds|
  {
    if kinds != [] {
      assert PlusOrOther(kinds[1..]);
      ScanHarmless(det, st, kinds[1..]);
    }
  }

  /** Two scans at the same place, whatever they have found. */
  predicate SamePlace(a: Scan, b: Scan) {
    a.path == b.path && a.line.Some? == b.line.Some?
  }

  lemma AdvanceSame(a: Scan, b: Scan, k: Kind)
    requires SamePlace(a, b)
    ensures
      var x, y := Advance(MATCH_ALL, a, k), Advance(MATCH_ALL, b, k);
      && x.Some? == y.Some?
      && (x.Some? ==>
            && SamePlace(x.value, y.value) && x.value.path == Believing(a.path, k)
            && x.value.line.Some? == (a.line.Some? || k.HunkAt?)
            && |x.value.findings| - |a.findings| == |y.value.findings| - |b.findings|)
  {
    if k.Plus? {
      assert MATCH_ALL.patterns[0](k.content);
    }
  }

  lemma SplitHead(classify: string -> Kind, det: Detector, st: Scan, lines: seq<string>, ends: seq<string>)
    requires |lines| == |ends| && lines != [] && IsLineEnd(ends[0]) && Loose(classify, lines[0], ends[0])
    ensures
      var cut, rest := CutOff(classify, lines[0], ends[0]), Kinds(classify, SplitLines(JoinLines(lines[1..], ends[1..])));
      ScanKinds(det, st, Kinds(classify, SplitLines(JoinLines(lines, ends))))
      == match Advance(det, st, classify(lines[0]))
         case None => None
         case Some(next) => ScanKinds(det, next, cut + rest)
  {
    hide SplitLines, Advance;
    var own, text := SplitLines(lines[0] + ends[0]), JoinLines(lines[1..], ends[1..]);
    SplitLineOff(lines[0], ends[0], text);
    KindsConcat(classify, own, SplitLines(text));
    var head, cut, rest := [classify(lines[0])], CutOff(classify, lines[0], ends[0]), Kinds(classify, SplitLines(text));
    assert (head + cut) + rest == head + (cut + rest);
    ScanConcat(det, st, head, cut + rest);
    assert head[1..] == [];
  }

  lemma KindsHead(classify: string -> Kind, det: Detector, st: Scan, lines: seq<string>)
    requires lines != []
    ensures ScanKinds(det, st, Kinds(classify, lines))
         == match Advance(det, st, classify(lines[0]))
            case None => None
            case Some(next) => ScanKinds(det, next, Kinds(classify, lines[1..]))
  {
    assert Kinds(classify, lines)[1..] == Kinds(classify, lines[1..]);
  }

  /** A pattern that finds everything finds every forged line as well, and nothing less than without them. */
  lemma {:induction false} ForgedFound(classify: string -> Kind, a: Scan, b: Scan, lines: seq<string>, ends: seq<string>)
    requires |lines| == |ends| && SamePlace(a, b)
    requires forall i :: 0 <= i < |lines| ==> IsLineEnd(ends[i]) && Loose(classify, lines[i], ends[i])
    ensures
      var x := ScanKinds(MATCH_ALL, a, Kinds(classify, SplitLines(JoinLines(lines, ends))));
      var y := ScanKinds(MATCH_ALL, b, Kinds(classify, lines));
      && x.Some? == y.Some?
      && (x.Some? ==> |x.value.findings| - |a.findings|
                      == |y.value.findings| - |b.findings| + Forged(classify, lines, ends, a.path, a.line.Some?))
    decreases |lines|
  {
    hide SplitLines, Advance, Loose, CutOff;
    if lines == [] {
      NothingToSplit();
    } else {
      var cut := CutOff(classify, lines[0], ends[0]);
      CutOffLoose(classify, lines[0], ends[0]);
      SplitHead(classify, MATCH_ALL, a, lines, ends);
      KindsHead(classify, MATCH_ALL, b, lines);
      AdvanceSame(a, b, classify(lines[0]));
      var x, y := Advance(MATCH_ALL, a, classify(lines[0])), Advance(MATCH_ALL, b, classify(lines[0]));
      if x.Some? {
        ScanCutOff(x.value, cut);
        ScanConcat(MATCH_ALL, x.value, cut, Kinds(classify, SplitLines(JoinLines(lines[1..], ends[1..]))));
        ForgedFound(classify, ScanKinds(MATCH_ALL, x.value, cut).value, y.value, lines[1..], ends[1..]);
      }
    }
  }

  lemma CutOffLoose(classify: string -> Kind, line: string, end: string)
    requires Loose(classify, line, end)
    ensures PlusOrOther(CutOff(classify, line, end))
  {
  }

  lemma AdvancePlace(det: Detector, st: Scan, k: Kind)
    ensures
      var x := Advance(det, st, k);
      x.Some? ==> x.value.path == Believing(st.path, k) && x.value.line.Some? == (st.line.Some? || k.HunkAt?)
  {
  }

  /** Without forged lines the text says what its lines say. */
  lemma {:induction false} UnforgedScanned(classify: string -> Kind, det: Detector, st: Scan, lines: seq<string>, ends: seq<string>)
    requires |lines| == |ends| && Forged(classify, lines, ends, st.path, st.line.Some?) == 0
    requires forall i :: 0 <= i < |lines| ==> IsLineEnd(ends[i]) && Loose(classify, lines[i], ends[i])
    ensures ScanKinds(det, st, Kinds(classify, SplitLines(JoinLines(lines, ends)))) == ScanKinds(det, st, Kinds(classify, lines))
    decreases |lines|
  {
    hide SplitLines, Advance, Loose, CutOff;
    if lines == [] {
      NothingToSplit();
    } else {
      var cut := CutOff(classify, lines[0], ends[0]);
      CutOffLoose(classify, lines[0], ends[0]);
      SplitHead(classify, det, st, lines, ends);
      KindsHead(classify, det, st, lines);
      AdvancePlace(det, st, classify(lines[0]));
      var x := Advance(det, st, classify(lines[0]));
      if x.Some? {
        ScanHarmless(det, x.value, cut);
        ScanConcat(det, x.value, cut, Kinds(classify, SplitLines(JoinLines(lines[1..], ends[1..]))));
        UnforgedScanned(classify, det, x.value, lines[1..], ends[1..]);
      }
    }
  }

  // ---------- the exact condition ----------

  lemma WholeLineLoose(classify: string -> Kind, line: string, end: string)
    requires SeparatorFree(line) && IsLineEnd(end)
    ensures Loose(classify, line, end)
  {
    WholePiece(line, end);
  }

  lemma EveryLineLoose(classify: string -> Kind, p: Printer, files: seq<FileDiff>, ends: seq<string>)
    requires Reads(classify, p) && WellFormedDiff(files) && LooselyWritten(classify, Render(p, files), ends)
    requires forall i :: 0 <= i < |files| && files[i].Text? ==> ReadableHunks(files[i].hunks)
    ensures forall i :: 0 <= i < |ends| ==> Loose(classify, Render(p, files)[i], ends[i])
  {
    hide Reads, Loose, ReadableHunks, WellFormedFile;
    RenderPlusFree(classify, p, files);
    forall i | 0 <= i < |ends|
      ensures Loose(classify, Render(p, files)[i], ends[i])
    {
      if "+" <= Render(p, files)[i] {
        WholeLineLoose(classify, Render(p, files)[i], ends[i]);
      }
    }
  }

  lemma LinesScanned(classify: string -> Kind, p: Printer, det: Detector, files: seq<FileDiff>)
    requires Reads(classify, p) && WellFormedDiff(files) && Readable(files)
    ensures
      var y := ScanKinds(det, START, Kinds(classify, Render(p, files)));
      y.Some? && y.value.findings == DiffReport(det, files)
  {
    hide Reads, WellFormedFile, ReadableHunks, NamesRead, Scanned, DiffReport;
    ReadableNothingPlusPlus(files);
    RenderRead(classify, p, files);
    ScanFiles(det, START, files);
    NamesReadScanned(det, files, None);
    assert START.findings + Scanned(det, files, None) == Scanned(det, files, None);
  }

  /** A readable diff whose other lines come apart into added lines is scanned right, for all patterns, exactly when none
      of those is cut off under a current path: each one there is a finding too many. */
  lemma {:induction false} ForgedIff(classify: string -> Kind, p: Printer, files: seq<FileDiff>, ends: seq<string>)
    requires Reads(classify, p) && WellFormedDiff(files) && Readable(files)
    requires LooselyWritten(classify, Render(p, files), ends)
    ensures (forall det :: ScanTextWith(classify, det, JoinLines(Render(p, files), ends)) == Some(DiffReport(det, files)))
       <==> Forged(classify, Render(p, files), ends, None, false) == 0
  {
    var lines := Render(p, files);
    EveryLineLoose(classify, p, files, ends);
    hide Reads, WellFormedFile, Readable, Loose, DiffReport, SplitLines, JoinLines, Render, Forged;
    LinesScanned(classify, p, MATCH_ALL, files);
    ForgedFound(classify, START, START, lines, ends);
    if Forged(classify, lines, ends, None, false) == 0 {
      forall det
        ensures ScanTextWith(classify, det, JoinLines(lines, ends)) == Some(DiffReport(det, files))
      {
        LinesScanned(classify, p, det, files);
        UnforgedScanned(classify, det, START, lines, ends);
      }
    }
  }

  /** The same for the lines git prints. */
  lemma {:induction false} GitForgedIff(files: seq<FileDiff>, ends: seq<string>)
    requires WellFormedDiff(files) && Readable(files) && LooselyWritten(Classify, Render(GIT, files), ends)
    ensures (forall det :: ScanText(det, JoinLines(Render(GIT, files), ends)) == Some(DiffReport(det, files)))
       <==> Forged(Classify, Render(GIT, files), ends, None, false) == 0
  {
    hide Loose, WellFormedFile, Readable, ScanTextWith, JoinLines, Render, Forged;
    ClassifyReads();
    ForgedIff(Classify, GIT, files, ends);
  }
}
