/** What the diff scanner reports on any lines, without following it line by line: which lines become findings, and where
    each finding's path and line number come from. */
module DiffMeaning {
  import opened Counting
  import opened Decimal
  import opened Options
  import opened DiffExact
  import opened DiffScan

  predicate Naming(kind: Kind) {
    kind.NewPath? || kind.NoPath?
  }

  /** The last line before `i` that says anything about the path is `n`, and it names one. */
  ghost predicate Named(kinds: seq<Kind>, n: int, i: int) {
    0 <= n < i <= |kinds| && kinds[n].NewPath? && forall q :: n < q < i ==> !Naming(kinds[q])
  }

  /** The last hunk header before `i` is `h`. */
  ghost predicate Headed(kinds: seq<Kind>, h: int, i: int) {
    0 <= h < i <= |kinds| && kinds[h].HunkAt? && forall q :: h < q < i ==> !kinds[q].HunkAt?
  }

  /** A line the scanner counts: added or unchanged, while a path is named. */
  ghost predicate Counted(kinds: seq<Kind>, j: int) {
    0 <= j < |kinds| && (kinds[j].Plus? || kinds[j].Context?) && exists n :: Named(kinds, n, j)
  }

  ghost function CountedBetween(kinds: seq<Kind>, h: int, i: int): set<int> {
    set j | h < j < i && Counted(kinds, j)
  }

  /** An added line under a path and a hunk header that some pattern finds something in. */
  ghost predicate Found(det: Detector, kinds: seq<Kind>, i: int) {
    && 0 <= i < |kinds| && kinds[i].Plus?
    && (exists n :: Named(kinds, n, i)) && (exists h :: Headed(kinds, h, i))
    && exists k :: 0 <= k < |det.patterns| && det.patterns[k](kinds[i].content)
  }

  /** The finding of line `i`: the path last named, the position of the last hunk header and the lines counted since, the
      digest of the line, and the first pattern that matches. */
  ghost predicate FindingOf(det: Detector, kinds: seq<Kind>, i: int, f: Finding)
    requires Found(det, kinds, i)
  {
    && (forall n :: Named(kinds, n, i) ==> f.path == kinds[n].path)
    && (forall h :: Headed(kinds, h, i) && kinds[h].start.Some? ==> f.line == kinds[h].start.value + |CountedBetween(kinds, h, i)|)
    && f.sha256 == det.sha(kinds[i].content)
    && f.patternIndex < |det.patterns| && det.patterns[f.patternIndex](kinds[i].content)
    && forall k :: 0 <= k < f.patternIndex ==> !det.patterns[k](kinds[i].content)
  }

  ghost predicate HeadersRead(kinds: seq<Kind>) {
    forall i :: 0 <= i < |kinds| && kinds[i].HunkAt? ==> kinds[i].start.Some?
  }

  ghost predicate FoundAt(det: Detector, kinds: seq<Kind>, at: seq<nat>) {
    && (forall k, l :: 0 <= k < l < |at| ==> at[k] < at[l])
    && (forall k :: 0 <= k < |at| ==> Found(det, kinds, at[k]))
    && forall i :: Found(det, kinds, i) ==> i in at
  }

  ghost predicate Position(kinds: seq<Kind>, path: Option<string>, line: Option<nat>) {
    && (path.Some? <==> exists n :: Named(kinds, n, |kinds|))
    && (forall n :: Named(kinds, n, |kinds|) ==> path == Some(kinds[n].path))
    && (line.Some? <==> exists h :: Headed(kinds, h, |kinds|))
    && forall h :: Headed(kinds, h, |kinds|) ==>
        kinds[h].start.Some? && line == Some(kinds[h].start.value + |CountedBetween(kinds, h, |kinds|)|)
  }

  /** What the scanner remembers of the lines read. */
  ghost predicate Remembers(det: Detector, kinds: seq<Kind>, at: seq<nat>, st: Scan) {
    && HeadersRead(kinds) && FoundAt(det, kinds, at) && |st.findings| == |at|
    && (forall k :: 0 <= k < |at| ==> FindingOf(det, kinds, at[k], st.findings[k]))
    && Position(kinds, st.path, st.line)
  }

  // ---------- one more line ----------

  lemma LongerNamed(kinds: seq<Kind>, kind: Kind, n: int, i: int)
    ensures i <= |kinds| ==> (Named(kinds + [kind], n, i) <==> Named(kinds, n, i))
    ensures Named(kinds + [kind], n, |kinds| + 1) <==> if Naming(kind) then kind.NewPath? && n == |kinds| else Named(kinds, n, |kinds|)
    ensures Named(kinds, n, i) ==> 0 <= n < |kinds| && (kinds + [kind])[n] == kinds[n]
  {
    var longer := kinds + [kind];
    assert longer[|kinds|] == kind && forall q :: 0 <= q < |kinds| ==> longer[q] == kinds[q];
  }

  lemma LongerHeaded(kinds: seq<Kind>, kind: Kind, h: int, i: int)
    ensures i <= |kinds| ==> (Headed(kinds + [kind], h, i) <==> Headed(kinds, h, i))
    ensures Headed(kinds + [kind], h, |kinds| + 1) <==> if kind.HunkAt? then h == |kinds| else Headed(kinds, h, |kinds|)
    ensures Headed(kinds, h, i) ==> 0 <= h < |kinds| && (kinds + [kind])[h] == kinds[h] && kinds[h].HunkAt?
  {
    var longer := kinds + [kind];
    assert longer[|kinds|] == kind && forall q :: 0 <= q < |kinds| ==> longer[q] == kinds[q];
  }

  lemma LongerCounted(kinds: seq<Kind>, kind: Kind, j: int)
    ensures j < |kinds| ==> (Counted(kinds + [kind], j) <==> Counted(kinds, j))
    ensures Counted(kinds + [kind], |kinds|) <==> (kind.Plus? || kind.Context?) && exists n :: Named(kinds, n, |kinds|)
  {
    hide Named;
    var longer := kinds + [kind];
    assert longer[|kinds|] == kind && forall q :: 0 <= q < |kinds| ==> longer[q] == kinds[q];
    forall n, i | i <= |kinds|
      ensures Named(longer, n, i) <==> Named(kinds, n, i)
    {
      LongerNamed(kinds, kind, n, i);
    }
  }

  lemma LongerCount(kinds: seq<Kind>, kind: Kind, h: int, i: int)
    requires i <= |kinds|
    ensures CountedBetween(kinds + [kind], h, i) == CountedBetween(kinds, h, i)
    ensures 0 <= h < |kinds| ==>
      |CountedBetween(kinds + [kind], h, |kinds| + 1)|
        == |CountedBetween(kinds, h, |kinds|)| + (if Counted(kinds + [kind], |kinds|) then 1 else 0)
  {
    hide Counted;
    var longer, n := kinds + [kind], |kinds|;
    forall j
      ensures j < n ==> (Counted(longer, j) <==> Counted(kinds, j))
    {
      LongerCounted(kinds, kind, j);
    }
    if 0 <= h < n {
      if Counted(longer, n) {
        assert CountedBetween(longer, h, n + 1) == CountedBetween(kinds, h, n) + {n};
      } else {
        assert CountedBetween(longer, h, n + 1) == CountedBetween(kinds, h, n);
      }
    }
  }

  lemma NoneBetween(kinds: seq<Kind>, h: int)
    ensures CountedBetween(kinds, h, h + 1) == {}
  {
  }

  lemma FoundKept(det: Detector, kinds: seq<Kind>, kind: Kind, i: int)
    requires i < |kinds|
    ensures Found(det, kinds + [kind], i) <==> Found(det, kinds, i)
    ensures Found(det, kinds, i) ==>
      forall f :: FindingOf(det, kinds, i, f) ==> Found(det, kinds + [kind], i) && FindingOf(det, kinds + [kind], i, f)
  {
    hide Named, Headed, CountedBetween;
    var longer := kinds + [kind];
    forall n
      ensures Named(longer, n, i) <==> Named(kinds, n, i)
      ensures Named(kinds, n, i) ==> 0 <= n < |kinds| && longer[n] == kinds[n]
    {
      LongerNamed(kinds, kind, n, i);
    }
    forall h
      ensures Headed(longer, h, i) <==> Headed(kinds, h, i)
      ensures Headed(kinds, h, i) ==> 0 <= h < |kinds| && longer[h] == kinds[h]
      ensures CountedBetween(longer, h, i) == CountedBetween(kinds, h, i)
    {
      LongerHeaded(kinds, kind, h, i);
      LongerCount(kinds, kind, h, i);
    }
  }

  lemma PathStep(kinds: seq<Kind>, kind: Kind, path: Option<string>)
    requires path.Some? <==> exists n :: Named(kinds, n, |kinds|)
    requires forall n :: Named(kinds, n, |kinds|) ==> path == Some(kinds[n].path)
    ensures
      var longer := kinds + [kind];
      var now := if kind.NewPath? then Some(kind.path) else if kind.NoPath? then None else path;
      && (now.Some? <==> exists n :: Named(longer, n, |longer|))
      && (forall n :: Named(longer, n, |longer|) ==> now == Some(longer[n].path))
  {
    hide Named;
    var longer := kinds + [kind];
    assert longer[|kinds|] == kind;
    forall n
      ensures Named(longer, n, |longer|) <==> if Naming(kind) then kind.NewPath? && n == |kinds| else Named(kinds, n, |kinds|)
      ensures Named(kinds, n, |kinds|) ==> 0 <= n < |kinds| && longer[n] == kinds[n]
    {
      LongerNamed(kinds, kind, n, |kinds|);
    }
    if kind.NewPath? {
      assert Named(longer, |kinds|, |longer|);
    } else if !kind.NoPath? && path.Some? {
      var n :| Named(kinds, n, |kinds|);
      assert Named(longer, n, |longer|);
    }
  }

  lemma LineStep(kinds: seq<Kind>, kind: Kind, path: Option<string>, line: Option<nat>)
    requires Position(kinds, path, line) && (kind.HunkAt? ==> kind.start.Some?)
    ensures
      var longer := kinds + [kind];
      var now := if kind.HunkAt? then kind.start
                 else if (kind.Plus? || kind.Context?) && path.Some? && line.Some? then Some(line.value + 1)
                 else line;
      && (now.Some? <==> exists h :: Headed(longer, h, |longer|))
      && (forall h :: Headed(longer, h, |longer|) ==>
            longer[h].start.Some? && now == Some(longer[h].start.value + |CountedBetween(longer, h, |longer|)|))
  {
    hide Named, Headed, CountedBetween, Counted;
    var longer := kinds + [kind];
    assert longer[|kinds|] == kind;
    LongerCounted(kinds, kind, |kinds|);
    NoneBetween(longer, |kinds|);
    forall h
      ensures Headed(longer, h, |longer|) <==> if kind.HunkAt? then h == |kinds| else Headed(kinds, h, |kinds|)
      ensures Headed(kinds, h, |kinds|) ==> 0 <= h < |kinds| && longer[h] == kinds[h] && kinds[h].HunkAt?
      ensures Headed(kinds, h, |kinds|) ==>
        |CountedBetween(longer, h, |longer|)|
          == |CountedBetween(kinds, h, |kinds|)| + (if Counted(longer, |kinds|) then 1 else 0)
    {
      LongerHeaded(kinds, kind, h, |kinds|);
      LongerCount(kinds, kind, h, |kinds|);
    }
    if kind.HunkAt? {
      assert Headed(longer, |kinds|, |longer|);
    } else if line.Some? {
      var h :| Headed(kinds, h, |kinds|);
      assert Headed(longer, h, |longer|);
    }
  }

  /** Whether the new line is a finding, and which. */
  lemma NewFinding(det: Detector, kinds: seq<Kind>, kind: Kind, path: Option<string>, line: Option<nat>)
    requires Position(kinds, path, line)
    ensures
      var longer, n := kinds + [kind], |kinds|;
      && (Found(det, longer, n) <==>
            kind.Plus? && path.Some? && line.Some? && FirstMatch(det.patterns, kind.content).Some?)
      && (Found(det, longer, n) ==>
            FindingOf(det, longer, n,
              Finding(path.value, line.value, det.sha(kind.content), FirstMatch(det.patterns, kind.content).value)))
  {
    hide Named, Headed, CountedBetween;
    var longer, n := kinds + [kind], |kinds|;
    assert longer[n] == kind;
    forall m
      ensures Named(longer, m, n) <==> Named(kinds, m, n)
      ensures Named(kinds, m, n) ==> 0 <= m < n && longer[m] == kinds[m]
    {
      LongerNamed(kinds, kind, m, n);
    }
    forall h
      ensures Headed(longer, h, n) <==> Headed(kinds, h, n)
      ensures Headed(kinds, h, n) ==> 0 <= h < n && longer[h] == kinds[h] && kinds[h].HunkAt?
      ensures CountedBetween(longer, h, n) == CountedBetween(kinds, h, n)
    {
      LongerHeaded(kinds, kind, h, n);
      LongerCount(kinds, kind, h, n);
    }
    if kind.Plus? {
      MatchIff(det.patterns, kind.content);
    }
  }

  lemma MatchIff(patterns: seq<string -> bool>, content: string)
    ensures
      var found := FirstMatch(patterns, content);
      && (found.Some? <==> exists k :: 0 <= k < |patterns| && patterns[k](content))
      && (found.Some? ==> found.value < |patterns| && patterns[found.value](content)
                          && forall k :: 0 <= k < found.value ==> !patterns[k](content))
  {
    var found := FirstMatch(patterns, content);
    if found.Some? {
      FirstMatchIff(patterns, content, found.value);
    } else {
      NoMatch(patterns, content);
    }
  }

  lemma {:induction false} NoMatch(patterns: seq<string -> bool>, content: string)
    requires FirstMatch(patterns, content) == None
    ensures forall k :: 0 <= k < |patterns| ==> !patterns[k](content)
  {
    if patterns != [] {
      NoMatch(patterns[1..], content);
      assert forall k :: 1 <= k < |patterns| ==> patterns[k] == patterns[1..][k - 1];
    }
  }

  lemma FindingsKept(det: Detector, kinds: seq<Kind>, kind: Kind, at: seq<nat>, findings: seq<Finding>)
    requires FoundAt(det, kinds, at) && |findings| == |at|
    requires forall k :: 0 <= k < |at| ==> FindingOf(det, kinds, at[k], findings[k])
    ensures forall k :: 0 <= k < |at| ==>
      at[k] < |kinds| && Found(det, kinds + [kind], at[k]) && FindingOf(det, kinds + [kind], at[k], findings[k])
    ensures forall i :: i < |kinds| && Found(det, kinds + [kind], i) ==> i in at
  {
    hide FindingOf;
    forall k | 0 <= k < |at|
      ensures at[k] < |kinds| && Found(det, kinds + [kind], at[k]) && FindingOf(det, kinds + [kind], at[k], findings[k])
    {
      FoundKept(det, kinds, kind, at[k]);
    }
    forall i | i < |kinds| && Found(det, kinds + [kind], i)
      ensures i in at
    {
      FoundKept(det, kinds, kind, i);
    }
  }

  lemma FoundInside(det: Detector, kinds: seq<Kind>, i: int)
    requires Found(det, kinds, i)
    ensures 0 <= i < |kinds|
  {
  }

  lemma OneMore(det: Detector, kinds: seq<Kind>, kind: Kind, at: seq<nat>, st: Scan) returns (more: seq<nat>)
    requires Remembers(det, kinds, at, st) && Advance(det, st, kind).Some?
    ensures Remembers(det, kinds + [kind], more, Advance(det, st, kind).value)
  {
    hide Found, FindingOf, Named, Headed, CountedBetween;
    var longer, n, next := kinds + [kind], |kinds|, Advance(det, st, kind).value;
    PathStep(kinds, kind, st.path);
    LineStep(kinds, kind, st.path, st.line);
    NewFinding(det, kinds, kind, st.path, st.line);
    FindingsKept(det, kinds, kind, at, st.findings);
    more := if Found(det, longer, n) then at + [n] else at;
    forall i | Found(det, longer, i)
      ensures i in more
    {
      FoundInside(det, longer, i);
      if i == n {
        assert more[|at|] == n;
      }
    }
    assert HeadersRead(longer);
  }

  lemma {:induction false} Remembered(det: Detector, kinds: seq<Kind>) returns (at: seq<nat>)
    ensures ScanKinds(det, START, kinds).Some? <==> HeadersRead(kinds)
    ensures ScanKinds(det, START, kinds).Some? ==> Remembers(det, kinds, at, ScanKinds(det, START, kinds).value)
    decreases |kinds|
  {
    if kinds == [] {
      at := [];
    } else {
      hide Advance, Remembers;
      var n := |kinds| - 1;
      var front, kind := kinds[..n], kinds[n];
      assert kinds == front + [kind];
      at := Remembered(det, front);
      ScanConcat(det, START, front, [kind]);
      if ScanKinds(det, START, front).Some? {
        var st := ScanKinds(det, START, front).value;
        OneKind(det, st, kind);
        if Advance(det, st, kind).Some? {
          at := OneMore(det, front, kind, at, st);
        }
      }
    }
  }

  lemma OneKind(det: Detector, st: Scan, kind: Kind)
    ensures ScanKinds(det, st, [kind]) == Advance(det, st, kind)
    ensures Advance(det, st, kind).Some? <==> (kind.HunkAt? ==> kind.start.Some?)
  {
  }

  /** For any lines: the scanner stops exactly at a hunk header without a position. Otherwise there is one finding for each
      added line under a path and a hunk header in which some pattern finds something, in their order. It has the path last
      named, the line number that the last hunk header and the lines counted since give, the digest of the line, and the
      first pattern that matches. */
  lemma {:induction false} FindingsOfAnyLines(classify: string -> Kind, det: Detector, lines: seq<string>) returns (at: seq<nat>)
    ensures ScanDiff(classify, det, lines) == None <==> !HeadersRead(Kinds(classify, lines))
    ensures ScanDiff(classify, det, lines).Some? ==>
      var findings := ScanDiff(classify, det, lines).value;
      && |findings| == |at|
      && (forall k, l :: 0 <= k < l < |at| ==> at[k] < at[l])
      && (forall i :: i in at <==> Found(det, Kinds(classify, lines), i))
      && forall k :: 0 <= k < |at| ==> FindingOf(det, Kinds(classify, lines), at[k], findings[k])
  {
    hide HeadersRead, FindingOf, Position, Advance;
    at := Remembered(det, Kinds(classify, lines));
    if ScanDiff(classify, det, lines).Some? {
      assert forall i :: Found(det, Kinds(classify, lines), i) ==> i >= 0;
    }
  }

  // ---------- the position in a hunk header ----------

  predicate PlusAt(s: string, i: int) {
    0 <= i < |s| - 1 && s[i] == '+' && '0' <= s[i + 1] <= '9'
  }

  /** A header without such a place is the only one that cannot be read. */
  lemma {:induction false} NoPositionIff(s: string)
    ensures HunkStart(s) == None <==> forall i :: !PlusAt(s, i)
  {
    if |s| >= 2 {
      var rest := s[1..];
      NoPositionIff(rest);
      forall i
        ensures i > 0 ==> (PlusAt(s, i) <==> PlusAt(rest, i - 1))
      {
      }
      if PlusAt(s, 0) {
        assert HunkStart(s).Some?;
      } else if j :| PlusAt(rest, j) {
        assert PlusAt(s, j + 1);
      }
    }
  }

  /** `re.search(r"\+(\d+)", s)`: behind the first plus sign that has a digit behind it, all the digits up to `end`. */
  lemma {:induction false} PositionRead(s: string, i: nat, end: nat)
    requires PlusAt(s, i) && forall j :: 0 <= j < i ==> !PlusAt(s, j)
    requires i + 1 < end <= |s| && AllDigits(s[i + 1..end]) && (end == |s| || !IsDigit(s[end]))
    ensures HunkStart(s) == Some(Read(s[i + 1..end]))
  {
    hide Read, AllDigits;
    var rest := s[1..];
    if i == 0 {
      assert rest == s[1..end] + rest[end - 1..];
      DigitRunStops(s[1..end], rest[end - 1..]);
      assert rest[..end - 1] == s[1..end];
    } else {
      assert !PlusAt(s, 0);
      assert rest[i..end - 1] == s[i + 1..end];
      assert forall j :: 0 <= j < i - 1 ==> (PlusAt(rest, j) <==> PlusAt(s, j + 1));
      PositionRead(rest, i - 1, end - 1);
    }
  }
}
