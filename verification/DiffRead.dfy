/** How the scanner reads each line of a rendered diff.

    The facts about texts are collected here, one for each kind of line git prints, so that the round trip in `DiffRoundTrip`
    and the exact conditions built on it speak of kinds of lines only. They end in `ClassifyReads`, which is all of them
    for the lines of git. */
module DiffRead {
  import opened Options
  import opened Decimal
  import opened Lines
  import opened DiffScan

  // ---------- the same diffs as kinds of lines ----------

  function LabelKind(f: FileDiff): Kind
    requires f.Text?
  {
    if f.deleted then NoPath else if f.quoted.Some? then Other else NewPath(f.path + TabAfter(f.path))
  }

  function Marks(b: bool): nat {
    if b then 1 else 0
  }

  function Repeat(k: nat): seq<Kind> {
    seq(k, _ => Other)
  }

  function PlusKinds(added: seq<string>): seq<Kind> {
    seq(|added|, i requires 0 <= i < |added| => Plus(added[i]))
  }

  function HunkKinds(h: Hunk, n: nat): seq<Kind> {
    [HunkAt(Some(At(n + |h.keep|, |h.added|)))]
    + (Repeat(|h.removed| + Marks(h.oldMark)) + (PlusKinds(h.added) + Repeat(Marks(h.newMark))))
  }

  function HunksKinds(hs: seq<Hunk>, n: nat): seq<Kind> {
    if hs == [] then [] else HunkKinds(hs[0], n) + HunksKinds(hs[1..], n + |hs[0].keep| + |hs[0].added|)
  }

  function FileKinds(f: FileDiff): seq<Kind> {
    Repeat(|f.preamble|) + (if f.Text? then [LabelKind(f)] + HunksKinds(f.hunks, 0) else [])
  }

  function DiffKinds(files: seq<FileDiff>): seq<Kind> {
    if files == [] then [] else FileKinds(files[0]) + DiffKinds(files[1..])
  }

  // ---------- how the printed lines are read ----------

  lemma ReadRange(start: nat, count: nat, rest: string)
    requires rest == "" || !IsDigit(rest[0])
    ensures HunkStart("+" + (Range(start, count) + rest)) == Some(start)
  {
    var after := if count == 1 then rest else ("," + Show(count)) + rest;
    assert Range(start, count) + rest == Show(start) + after;
    ReadNumber(start, after);
  }

  lemma ReadNumber(start: nat, after: string)
    requires after == "" || !IsDigit(after[0])
    ensures HunkStart("+" + (Show(start) + after)) == Some(start)
  {
    ReadShow(start);
    var digits := Show(start);
    var s := "+" + (digits + after);
    assert s[1..] == digits + after && s[1] == digits[0];
    DigitRunStops(digits, after);
    assert (digits + after)[..|digits|] == digits;
  }

  lemma {:induction false} SkipToPlus(a: string, rest: string)
    requires forall i :: 0 <= i < |a| ==> a[i] != '+'
    requires |rest| >= 2
    ensures HunkStart(a + rest) == HunkStart(rest)
  {
    if a == "" {
      assert a + rest == rest;
    } else {
      assert (a + rest)[1..] == a[1..] + rest;
      SkipToPlus(a[1..], rest);
    }
  }

  lemma RangeHasNoPlus(start: nat, count: nat)
    ensures forall i :: 0 <= i < |Range(start, count)| ==> Range(start, count)[i] != '+'
  {
    ReadShow(start);
    ReadShow(count);
  }

  lemma RangeNotEmpty(start: nat, count: nat)
    ensures Range(start, count) != ""
  {
    ReadShow(start);
  }

  /** A printed hunk header is read as the position of its first new line. */
  lemma HeaderClassified(h: Hunk, o: nat, n: nat)
    ensures Classify(HunkHeader(h, o, n)) == HunkAt(Some(At(n, |h.added|)))
  {
    var oldRange := Range(At(o, |h.removed|), |h.removed|);
    var newRange := Range(At(n, |h.added|), |h.added|);
    var tail := " @@" + h.section;
    var rest := "+" + (newRange + tail);
    RangeHasNoPlus(At(o, |h.removed|), |h.removed|);
    RangeNotEmpty(At(n, |h.added|), |h.added|);
    ReadRange(At(n, |h.added|), |h.added|, tail);
    var front := "@@ -" + (oldRange + " ");
    assert HunkHeader(h, o, n) == front + rest;
    SkipToPlus(front, rest);
    assert front[0] == '@' && front[1] == '@';
  }

  lemma PlusPrefix(content: string)
    ensures "+++" <= ['+'] + content <==> "++" <= content
  {
    var raw := ['+'] + content;
    assert raw[1..] == content;
    if "++" <= content {
      assert raw[1] == content[0] && raw[2] == content[1];
    }
  }

  lemma AddedClassified(content: string)
    requires !("++" <= content)
    ensures Classify(['+'] + content) == Plus(content)
  {
    PlusPrefix(content);
    assert (['+'] + content)[1..] == content;
  }

  lemma LabelClassified(f: FileDiff)
    requires f.Text?
    ensures Classify(NewLabel(f)) == LabelKind(f)
  {
    if f.deleted {
      assert NewLabel(f)[4] == '/';
    } else if f.quoted.Some? {
      assert NewLabel(f)[4] == '\"' && NewLabel(f)[0] == '+' && NewLabel(f)[1] == '+' && NewLabel(f)[2] == '+';
    } else {
      assert NewLabel(f)[6..] == f.path + TabAfter(f.path);
    }
  }

  lemma LabelSeparatorFree(f: FileDiff)
    requires f.Text? && WellFormedFile(f)
    ensures SeparatorFree(NewLabel(f))
  {
    if !f.deleted && f.quoted.Some? {
    } else if !f.deleted {
    }
  }

  /** Everything the rest of the argument needs to know about reading a line. */
  ghost predicate Reads(classify: string -> Kind, p: Printer) {
    && (forall raw :: Inert(raw) ==> classify(raw) == Other)
    && Inert(p.noLineEnd)
    && (forall content: string :: !("++" <= content) ==> classify(['+'] + content) == Plus(content))
    && (forall raw: string :: classify(raw).Plus? ==> raw != "" && classify(raw).content == raw[1..] && !("++" <= raw[1..]))
    && (forall h, o: nat, n: nat :: classify(p.header(h, o, n)) == HunkAt(Some(At(n, |h.added|))))
    && (forall h, o: nat, n: nat :: !("+" <= p.header(h, o, n)))
    && (forall f: FileDiff :: f.Text? ==> classify(p.newLabel(f)) == LabelKind(f))
    && (forall f: FileDiff :: f.Text? && WellFormedFile(f) ==> SeparatorFree(p.newLabel(f)))
  }

  lemma InertClassified(raw: string)
    requires Inert(raw)
    ensures Classify(raw) == Other
  {
  }

  lemma HeaderIsNoPlus(h: Hunk, o: nat, n: nat)
    ensures !("+" <= HunkHeader(h, o, n))
  {
    assert HunkHeader(h, o, n)[0] == '@';
  }

  lemma PlusContent(raw: string)
    requires Classify(raw).Plus?
    ensures raw != "" && Classify(raw).content == raw[1..] && !("++" <= raw[1..])
  {
    assert raw == ['+'] + raw[1..];
    PlusPrefix(raw[1..]);
  }

  /** The scanner's prefixes and regular expression fit the lines git prints. */
  lemma ClassifyReads()
    ensures Reads(Classify, GIT)
  {
    forall raw: string | Inert(raw)
      ensures Classify(raw) == Other
    {
      InertClassified(raw);
    }
    hide Classify, HunkHeader, NewLabel, LabelKind, WellFormedFile;
    forall content: string | !("++" <= content)
      ensures Classify(['+'] + content) == Plus(content)
    {
      AddedClassified(content);
    }
    forall raw: string | Classify(raw).Plus?
      ensures raw != "" && Classify(raw).content == raw[1..] && !("++" <= raw[1..])
    {
      PlusContent(raw);
    }
    forall h, o: nat, n: nat
      ensures Classify(GIT.header(h, o, n)) == HunkAt(Some(At(n, |h.added|)))
    {
      HeaderClassified(h, o, n);
    }
    forall h, o: nat, n: nat
      ensures !("+" <= GIT.header(h, o, n))
    {
      HeaderIsNoPlus(h, o, n);
    }
    forall f: FileDiff | f.Text? && WellFormedFile(f)
      ensures SeparatorFree(GIT.newLabel(f))
    {
      LabelSeparatorFree(f);
    }
    forall f: FileDiff | f.Text?
      ensures Classify(GIT.newLabel(f)) == LabelKind(f)
    {
      LabelClassified(f);
    }
  }

  // ---------- hunks and files ----------

  lemma KindsConcat(classify: string -> Kind, a: seq<string>, b: seq<string>)
    ensures Kinds(classify, a + b) == Kinds(classify, a) + Kinds(classify, b)
  {
  }

  lemma RemovedKinds(classify: string -> Kind, p: Printer, h: Hunk)
    requires Reads(classify, p)
    ensures Kinds(classify, Prefixed('-', h.removed) + Mark(p, h.oldMark)) == Repeat(|h.removed| + Marks(h.oldMark))
  {
    var lines := Prefixed('-', h.removed) + Mark(p, h.oldMark);
    assert forall i :: 0 <= i < |lines| ==> Inert(lines[i]);
  }

  lemma AddedKinds(classify: string -> Kind, p: Printer, h: Hunk)
    requires Reads(classify, p) && NoPlusPlus(h.added)
    ensures Kinds(classify, Prefixed('+', h.added) + Mark(p, h.newMark)) == PlusKinds(h.added) + Repeat(Marks(h.newMark))
  {
    assert Inert(p.noLineEnd);
  }

  lemma HeaderKinds(classify: string -> Kind, p: Printer, h: Hunk, o: nat, n: nat, rest: seq<string>)
    requires Reads(classify, p)
    ensures Kinds(classify, [p.header(h, o, n)] + rest) == [HunkAt(Some(At(n, |h.added|)))] + Kinds(classify, rest)
  {
    assert classify(p.header(h, o, n)) == HunkAt(Some(At(n, |h.added|)));
  }

  lemma HunkRead(classify: string -> Kind, p: Printer, h: Hunk, o: nat, n: nat)
    requires Reads(classify, p) && NoPlusPlus(h.added)
    ensures Kinds(classify, RenderHunk(p, h, o, n)) == HunkKinds(h, n)
  {
    hide Kinds;
    hide Repeat;
    hide PlusKinds;
    var removed, added := Prefixed('-', h.removed) + Mark(p, h.oldMark), Prefixed('+', h.added) + Mark(p, h.newMark);
    RemovedKinds(classify, p, h);
    AddedKinds(classify, p, h);
    HeaderKinds(classify, p, h, o + |h.keep|, n + |h.keep|, removed);
    KindsConcat(classify, [p.header(h, o + |h.keep|, n + |h.keep|)] + removed, added);
  }

  lemma {:induction false} HunksRead(classify: string -> Kind, p: Printer, hs: seq<Hunk>, o: nat, n: nat)
    requires Reads(classify, p) && AddsNoPlusPlus(hs)
    ensures Kinds(classify, RenderHunks(p, hs, o, n)) == HunksKinds(hs, n)
  {
    hide RenderHunk;
    hide HunkKinds;
    if hs != [] {
      var o', n' := o + |hs[0].keep| + |hs[0].removed|, n + |hs[0].keep| + |hs[0].added|;
      HunkRead(classify, p, hs[0], o, n);
      HunksRead(classify, p, hs[1..], o', n');
      KindsConcat(classify, RenderHunk(p, hs[0], o, n), RenderHunks(p, hs[1..], o', n'));
    }
  }

  lemma FileRead(classify: string -> Kind, p: Printer, f: FileDiff)
    requires Reads(classify, p) && WellFormedFile(f) && (f.Text? ==> AddsNoPlusPlus(f.hunks))
    ensures Kinds(classify, RenderFile(p, f)) == FileKinds(f)
  {
    assert Kinds(classify, f.preamble) == Repeat(|f.preamble|);
    if f.Text? {
      HunksRead(classify, p, f.hunks, 0, 0);
      var labelLine, hunks := [p.newLabel(f)], RenderHunks(p, f.hunks, 0, 0);
      KindsConcat(classify, f.preamble, labelLine + hunks);
      KindsConcat(classify, labelLine, hunks);
      assert Kinds(classify, labelLine) == [LabelKind(f)];
    }
  }

  ghost predicate NothingStartsPlusPlus(files: seq<FileDiff>) {
    forall i :: 0 <= i < |files| && files[i].Text? ==> AddsNoPlusPlus(files[i].hunks)
  }

  /** As long as no added line starts with `++`, every printed line is read as what it is. */
  lemma {:induction false} RenderRead(classify: string -> Kind, p: Printer, files: seq<FileDiff>)
    requires Reads(classify, p) && NothingStartsPlusPlus(files)
    requires forall i :: 0 <= i < |files| ==> WellFormedFile(files[i])
    ensures Kinds(classify, Render(p, files)) == DiffKinds(files)
  {
    if files != [] {
      FileRead(classify, p, files[0]);
      RenderRead(classify, p, files[1..]);
      KindsConcat(classify, RenderFile(p, files[0]), Render(p, files[1..]));
    }
  }
}
