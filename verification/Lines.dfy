/** Python's `str.splitlines()`. */
module Lines {

  predicate IsSeparator(c: char) {
    || '\n' <= c <= '\r'                   // line feed, vertical tab, form feed, carriage return
    || '\U{001C}' <= c <= '\U{001E}'
    || c == '\U{0085}'
    || c == '\U{2028}' || c == '\U{2029}'
  }

  predicate SeparatorFree(s: string) {
    forall i :: 0 <= i < |s| ==> !IsSeparator(s[i])
  }

  function LineLength(s: string): (k: nat)
    ensures k <= |s| && SeparatorFree(s[..k]) && (k < |s| ==> IsSeparator(s[k]))
  {
    if s == "" || IsSeparator(s[0]) then 0 else 1 + LineLength(s[1..])
  }

  /** A carriage return and a following line feed are one separator. */
  function SeparatorLength(s: string): nat
    requires s != ""
  {
    if |s| > 1 && s[0] == '\r' && s[1] == '\n' then 2 else 1
  }

  function SplitLines(s: string): seq<string>
    decreases |s|
  {
    if s == "" then []
    else
      var k := LineLength(s);
      if k == |s| then [s] else [s[..k]] + SplitLines(s[k..][SeparatorLength(s[k..])..])
  }

  predicate IsLineEnd(e: string) {
    e == "\n" || e == "\r\n"
  }

  /** Lines written one after another, each with its own line end. */
  function JoinLines(lines: seq<string>, ends: seq<string>): string
    requires |lines| == |ends|
  {
    if lines == [] then "" else lines[0] + (ends[0] + JoinLines(lines[1..], ends[1..]))
  }

  lemma {:induction false} LineLengthStops(a: string, r: string)
    requires SeparatorFree(a) && (r == "" || IsSeparator(r[0]))
    ensures LineLength(a + r) == |a|
  {
    if a == "" {
      assert a + r == r;
    } else {
      assert (a + r)[1..] == a[1..] + r;
      LineLengthStops(a[1..], r);
    }
  }

  /** What ends a piece: one separator, or a carriage return with its line feed. */
  predicate IsBreak(e: string) {
    e == "\r\n" || (|e| == 1 && IsSeparator(e[0]))
  }

  lemma SplitAtBreak(line: string, end: string, rest: string)
    requires SeparatorFree(line) && IsBreak(end)
    requires end == "\r" && rest != "" ==> rest[0] != '\n'
    ensures SplitLines(line + (end + rest)) == [line] + SplitLines(rest)
  {
    var s := line + (end + rest);
    LineLengthStops(line, end + rest);
    assert s[..|line|] == line && s[|line|..] == end + rest;
    assert SeparatorLength(end + rest) == |end|;
    assert (end + rest)[|end|..] == rest;
  }

  lemma SplitFirst(line: string, end: string, rest: string)
    requires SeparatorFree(line) && IsLineEnd(end)
    ensures SplitLines(line + (end + rest)) == [line] + SplitLines(rest)
  {
    SplitAtBreak(line, end, rest);
  }

  /** What follows the first line and its separator. */
  function Behind(s: string): string
    requires LineLength(s) < |s|
  {
    s[LineLength(s)..][SeparatorLength(s[LineLength(s)..])..]
  }

  lemma WholeLine(s: string)
    ensures LineLength(s) == |s| ==> SeparatorFree(s)
  {
    assert s[..|s|] == s;
  }

  lemma BreakBeforeEnd(s: string)
    requires s != "" && s[|s| - 1] == '\n'
    ensures LineLength(s) < |s|
    ensures Behind(s) == "" || Behind(s)[|Behind(s)| - 1] == '\n'
  {
    WholeLine(s);
    assert IsSeparator(s[|s| - 1]);
  }

  lemma SameFirstBreak(s: string, rest: string)
    requires s != "" && s[|s| - 1] == '\n' && LineLength(s) < |s|
    ensures LineLength(s + rest) == LineLength(s)
    ensures (s + rest)[..LineLength(s)] == s[..LineLength(s)] && Behind(s + rest) == Behind(s) + rest
  {
    var k := LineLength(s);
    LineLengthStops(s[..k], s[k..] + rest);
    assert s + rest == s[..k] + (s[k..] + rest);
    assert (s + rest)[k..] == s[k..] + rest;
    assert SeparatorLength(s[k..] + rest) == SeparatorLength(s[k..]);
  }

  /** A line feed ends its line whatever follows, so a text behind one is split on its own. */
  lemma {:induction false} SplitAfterLineFeed(s: string, rest: string)
    requires s == "" || s[|s| - 1] == '\n'
    ensures SplitLines(s + rest) == SplitLines(s) + SplitLines(rest)
    decreases |s|
  {
    hide LineLength, SeparatorLength, SplitLines, Behind;
    if s == "" {
      assert s + rest == rest;
      NothingToSplit();
      assert [] + SplitLines(rest) == SplitLines(rest);
    } else {
      BreakBeforeEnd(s);
      SameFirstBreak(s, rest);
      BehindShorter(s);
      SplitAfterLineFeed(Behind(s), rest);
      FirstSplit(s);
      FirstSplit(s + rest);
      var first := [s[..LineLength(s)]];
      assert first + (SplitLines(Behind(s)) + SplitLines(rest)) == (first + SplitLines(Behind(s))) + SplitLines(rest);
    }
  }

  lemma BehindShorter(s: string)
    requires LineLength(s) < |s|
    ensures |Behind(s)| < |s|
  {
  }

  lemma FirstSplit(s: string)
    requires LineLength(s) < |s|
    ensures SplitLines(s) == [s[..LineLength(s)]] + SplitLines(Behind(s))
  {
  }

  /** The first of several written lines is split on its own. */
  lemma SplitLineOff(line: string, end: string, rest: string)
    requires IsLineEnd(end)
    ensures SplitLines(line + (end + rest)) == SplitLines(line + end) + SplitLines(rest)
  {
    var s := line + end;
    assert s + rest == line + (end + rest);
    SplitAfterLineFeed(s, rest);
  }

  lemma {:induction false} SplitIsSeparatorFree(s: string)
    ensures forall i :: 0 <= i < |SplitLines(s)| ==> SeparatorFree(SplitLines(s)[i])
    decreases |s|
  {
    if s != "" {
      var k := LineLength(s);
      if k == |s| {
        assert s[..k] == s;
      } else {
        SplitIsSeparatorFree(s[k..][SeparatorLength(s[k..])..]);
      }
    }
  }

  /** `ends` are what was cut off behind the pieces: a break behind each but perhaps a last piece that is not empty, and a
      carriage return alone only where no line feed follows. */
  ghost predicate CutOff(lines: seq<string>, ends: seq<string>) {
    && |lines| == |ends|
    && (forall i :: 0 <= i < |lines| ==> SeparatorFree(lines[i]))
    && (forall i :: 0 <= i < |lines| ==> IsBreak(ends[i]) || (i == |lines| - 1 && ends[i] == "" && lines[i] != ""))
    && forall i :: 0 <= i < |lines| - 1 && ends[i] == "\r" ==> lines[i + 1] + ends[i + 1] != "\n"
  }

  lemma PieceAhead(piece: string, end: string, lines: seq<string>, ends: seq<string>)
    requires SeparatorFree(piece) && IsBreak(end) && CutOff(lines, ends)
    requires var rest := JoinLines(lines, ends); end == "\r" && rest != "" ==> rest[0] != '\n'
    ensures CutOff([piece] + lines, [end] + ends)
    ensures JoinLines([piece] + lines, [end] + ends) == piece + (end + JoinLines(lines, ends))
  {
    hide SeparatorFree, IsBreak;
    FirstBreak(lines, ends, JoinLines(lines, ends));
    assert ([piece] + lines)[1..] == lines && ([end] + ends)[1..] == ends;
  }

  /** Splitting takes any text apart into pieces without separators and the breaks between them, and loses nothing else. */
  lemma {:induction false} SplitSays(s: string) returns (ends: seq<string>)
    ensures CutOff(SplitLines(s), ends) && JoinLines(SplitLines(s), ends) == s
    decreases |s|
  {
    if s == "" {
      ends := [];
    } else if LineLength(s) == |s| {
      ends := [""];
      assert s[..|s|] == s;
    } else {
      hide LineLength, CutOff, JoinLines, SplitLines, Behind;
      var k := LineLength(s);
      BehindShorter(s);
      FirstSplit(s);
      var more := SplitSays(Behind(s));
      var end := FirstCut(s);
      PieceAhead(s[..k], end, SplitLines(Behind(s)), more);
      ends := [end] + more;
    }
  }

  /** There is only one way to take a text apart so, which makes this a description of `splitlines`. */
  lemma {:induction false} SplitUnique(lines: seq<string>, ends: seq<string>)
    requires CutOff(lines, ends)
    ensures SplitLines(JoinLines(lines, ends)) == lines
    decreases |lines|
  {
    if lines != [] {
      hide LineLength, IsSeparator;
      var more, others := lines[1..], ends[1..];
      var rest := JoinLines(more, others);
      SplitUnique(more, others);
      if ends[0] == "" {
        assert lines[0] + ("" + "") == lines[0];
        assert more == [];
      } else {
        FeedAhead(more, others);
        SplitAtBreak(lines[0], ends[0], rest);
      }
    }
  }

  /** Only an empty piece with a line feed behind starts with one. */
  lemma FeedAhead(lines: seq<string>, ends: seq<string>)
    requires CutOff(lines, ends)
    ensures
      var s := JoinLines(lines, ends);
      s != "" && s[0] == '\n' ==> lines != [] && lines[0] + ends[0] == "\n"
  {
    if lines != [] {
      var s, first := JoinLines(lines, ends), lines[0] + ends[0];
      assert s == first + JoinLines(lines[1..], ends[1..]);
      if lines[0] != "" {
        assert s[0] == lines[0][0];
      } else {
        assert first == ends[0] && IsBreak(ends[0]);
      }
    }
  }

  lemma FirstCut(s: string) returns (end: string)
    requires LineLength(s) < |s|
    ensures s == s[..LineLength(s)] + (end + Behind(s)) && IsBreak(end)
    ensures end == "\r" && Behind(s) != "" ==> Behind(s)[0] != '\n'
  {
    hide LineLength, IsSeparator;
    var k := LineLength(s);
    var tail := s[k..];
    end := tail[..SeparatorLength(tail)];
    assert s == s[..k] + tail && tail == end + tail[SeparatorLength(tail)..];
    assert end == "\r\n" || end == [tail[0]];
  }

  lemma FirstBreak(lines: seq<string>, ends: seq<string>, s: string)
    requires |lines| == |ends| && JoinLines(lines, ends) == s
    ensures lines != [] && lines[0] + ends[0] == "\n" ==> s != "" && s[0] == '\n'
  {
    if lines != [] {
      assert s == (lines[0] + ends[0]) + JoinLines(lines[1..], ends[1..]);
    }
  }

  lemma {:induction false} SplitJoined(lines: seq<string>, ends: seq<string>)
    requires |lines| == |ends|
    requires forall i :: 0 <= i < |lines| ==> SeparatorFree(lines[i]) && IsLineEnd(ends[i])
    ensures SplitLines(JoinLines(lines, ends)) == lines
  {
    if lines != [] {
      SplitJoined(lines[1..], ends[1..]);
      SplitFirst(lines[0], ends[0], JoinLines(lines[1..], ends[1..]));
    }
  }

  /** Splitting gives the written lines back exactly when none of them holds a separator. */
  lemma {:induction false} SplitJoinedIff(lines: seq<string>, ends: seq<string>)
    requires |lines| == |ends|
    requires forall i :: 0 <= i < |ends| ==> IsLineEnd(ends[i])
    ensures SplitLines(JoinLines(lines, ends)) == lines <==> forall i :: 0 <= i < |lines| ==> SeparatorFree(lines[i])
  {
    SplitIsSeparatorFree(JoinLines(lines, ends));
    if forall i :: 0 <= i < |lines| ==> SeparatorFree(lines[i]) {
      SplitJoined(lines, ends);
    }
  }

  lemma NothingToSplit()
    ensures SplitLines("") == []
  {
  }

  function Feeds(n: nat): seq<string> {
    seq(n, _ => "\n")
  }

  /** Lines with one line feed behind each. */
  function Fed(lines: seq<string>): string {
    JoinLines(lines, Feeds(|lines|))
  }

  lemma SplitFed(line: string, rest: seq<string>)
    requires SeparatorFree(line)
    ensures SplitLines(Fed([line] + rest)) == [line] + SplitLines(Fed(rest))
  {
    var lines := [line] + rest;
    assert lines[1..] == rest && Feeds(|lines|)[1..] == Feeds(|rest|);
    SplitFirst(line, "\n", Fed(rest));
  }

  lemma FedOne(line: string)
    ensures Fed([line]) == line + "\n"
  {
    var ends := Feeds(1);
    assert [line][1..] == [] && ends[1..] == [];
    assert JoinLines([line], ends) == line + (ends[0] + JoinLines([line][1..], ends[1..]));
    assert "\n" + "" == "\n";
  }

  lemma FedMore(line: string, rest: seq<string>)
    ensures Fed([line] + rest) == line + ("\n" + Fed(rest))
  {
    var lines := [line] + rest;
    assert lines[1..] == rest && Feeds(|lines|)[1..] == Feeds(|rest|);
  }

  // ---------- where a line of a file ends up ----------

  /** Every line has its end, but the last may go without when it is not empty. */
  predicate Ended(lines: seq<string>, ends: seq<string>) {
    && |ends| == |lines|
    && forall i :: 0 <= i < |lines| ==> IsLineEnd(ends[i]) || (i == |lines| - 1 && ends[i] == "" && lines[i] != "")
  }

  /** What `splitlines` makes of the lines, one after another. */
  function Pieces(lines: seq<string>, ends: seq<string>): seq<string>
    requires |lines| == |ends|
  {
    if lines == [] then [] else SplitLines(lines[0] + ends[0]) + Pieces(lines[1..], ends[1..])
  }

  /** A written file is split line by line. */
  lemma {:induction false} SplitJoinedPieces(lines: seq<string>, ends: seq<string>)
    requires Ended(lines, ends)
    ensures SplitLines(JoinLines(lines, ends)) == Pieces(lines, ends)
  {
    hide SplitLines;
    if lines == [] {
      NothingToSplit();
    } else {
      var rest := JoinLines(lines[1..], ends[1..]);
      SplitJoinedPieces(lines[1..], ends[1..]);
      if IsLineEnd(ends[0]) {
        SplitLineOff(lines[0], ends[0], rest);
      } else {
        assert rest == "";
        assert lines[0] + (ends[0] + rest) == lines[0] + ends[0];
        NothingToSplit();
        assert SplitLines(lines[0] + ends[0]) + [] == SplitLines(lines[0] + ends[0]);
      }
    }
  }

  lemma WholePiece(line: string, end: string)
    requires SeparatorFree(line) && (IsLineEnd(end) || (end == "" && line != ""))
    ensures SplitLines(line + end) == [line]
  {
    if end == "" {
      assert line + end == line + "";
      assert line + "" == line;
      LineLengthStops(line, "");
    } else {
      SplitFirst(line, end, "");
      assert line + (end + "") == line + end;
    }
  }

  lemma SomePiece(line: string, end: string)
    requires IsLineEnd(end) || (end == "" && line != "")
    ensures SplitLines(line + end) != []
  {
  }

  /** How many pieces stand before line `k`. */
  function Ahead(lines: seq<string>, ends: seq<string>, k: nat): nat
    requires |lines| == |ends| && k <= |lines|
  {
    if k == 0 then 0 else |SplitLines(lines[0] + ends[0])| + Ahead(lines[1..], ends[1..], k - 1)
  }

  /** A line without separators is the piece behind all pieces of the lines before it; these are at least as many as
      those lines, and as many when none of them holds a separator. */
  lemma {:induction false} LineFoundAt(lines: seq<string>, ends: seq<string>, k: nat)
    requires Ended(lines, ends) && k < |lines| && SeparatorFree(lines[k])
    ensures k <= Ahead(lines, ends, k) < |Pieces(lines, ends)| && Pieces(lines, ends)[Ahead(lines, ends, k)] == lines[k]
    ensures (forall i :: 0 <= i < k ==> SeparatorFree(lines[i])) ==> Ahead(lines, ends, k) == k
  {
    hide SplitLines;
    if k == 0 {
      WholePiece(lines[0], ends[0]);
    } else {
      SomePiece(lines[0], ends[0]);
      LineFoundAt(lines[1..], ends[1..], k - 1);
      if forall i :: 0 <= i < k ==> SeparatorFree(lines[i]) {
        WholePiece(lines[0], ends[0]);
        assert forall i :: 0 <= i < k - 1 ==> lines[1..][i] == lines[i + 1];
      }
    }
  }
}
