/** The three expressions of the OpenAPI line parser the way a regular expression is read: there is a way to take the line
    apart, and of several ways the greedy one counts. */
module YamlLines {
  import Ascii
  import opened Options
  import opened YamlOperations
  import R = YamlRoundTrip

  /** Indentation, some text, a colon, and nothing but blanks. */
  predicate ColonLine(line: string, indent: string, text: string, tail: string) {
    line == indent + (text + (":" + tail)) && Blank(tail)
  }

  lemma Cut(s: string, i: nat, j: nat)
    requires i <= j <= |s|
    ensures s == s[..i] + (s[i..j] + s[j..])
  {
  }

  lemma ColonSplit(rest: string)
    requires BeforeColon(rest) < |rest|
    ensures
      var k := BeforeColon(rest);
      rest == rest[..k] + (":" + rest[k + 1..]) && ':' !in rest[..k]
  {
    hide BeforeColon;
    var k := BeforeColon(rest);
    Cut(rest, k, k + 1);
    assert rest[k..k + 1] == ":";
  }

  /** `^  (/[^:]+):\\s*$` */
  lemma PathLineIff(line: string, path: string)
    ensures PathMatch(line) == Some(path)
       <==> (exists tail :: ColonLine(line, "  ", path, tail)) && |path| >= 2 && path[0] == '/' && ':' !in path
  {
    hide BeforeColon, Blank;
    if PathMatch(line) == Some(path) {
      var rest := line[2..];
      ColonSplit(rest);
      assert line == "  " + rest;
      assert ColonLine(line, "  ", path, rest[BeforeColon(rest) + 1..]);
    }
    if |path| >= 2 && path[0] == '/' && ':' !in path {
      if tail :| ColonLine(line, "  ", path, tail) {
        PathLineRead(line, path, tail);
      }
    }
  }

  lemma PathLineRead(line: string, path: string, tail: string)
    requires ColonLine(line, "  ", path, tail) && |path| >= 2 && path[0] == '/' && ':' !in path
    ensures PathMatch(line) == Some(path)
  {
    hide BeforeColon, Blank;
    var rest := path + (":" + tail);
    R.ColonAt(path, tail);
    assert line[2..] == rest && rest[0] == '/';
    assert rest[..|path|] == path && rest[|path| + 1..] == tail;
  }

  predicate MethodWord(word: string) {
    word == "get" || word == "post" || word == "put" || word == "patch" || word == "delete"
  }

  /** `^    (get|post|put|patch|delete):\\s*$`, upper-cased */
  lemma VerbLineIff(line: string, verb: string)
    ensures VerbMatch(line) == Some(verb)
       <==> exists word, tail :: ColonLine(line, "    ", word, tail) && MethodWord(word) && verb == Ascii.Upper(word)
  {
    hide BeforeColon, Blank;
    if VerbMatch(line) == Some(verb) {
      var rest := line[4..];
      ColonSplit(rest);
      assert line == "    " + rest;
      assert ColonLine(line, "    ", rest[..BeforeColon(rest)], rest[BeforeColon(rest) + 1..]);
    }
    if word, tail :| ColonLine(line, "    ", word, tail) && MethodWord(word) && verb == Ascii.Upper(word) {
      VerbLineRead(line, word, tail);
    }
  }

  lemma VerbLineRead(line: string, word: string, tail: string)
    requires ColonLine(line, "    ", word, tail) && MethodWord(word)
    ensures VerbMatch(line) == Some(Ascii.Upper(word))
  {
    hide Verb, BeforeColon, Blank;
    WordRead(word);
    var rest := word + (":" + tail);
    R.ColonAt(word, tail);
    assert line[4..] == rest;
    assert rest[..|word|] == word && rest[|word| + 1..] == tail;
  }

  lemma WordRead(word: string)
    requires MethodWord(word)
    ensures Verb(word) == Some(Ascii.Upper(word)) && ':' !in word
  {
  }

  /** Blanks, an optional quote, a text without quotes, and anything. */
  datatype Parts = Parts(blanks: string, quote: string, text: string, more: string)

  predicate MadeOf(rest: string, p: Parts) {
    && rest == p.blanks + (p.quote + (p.text + p.more)) && Blank(p.blanks)
    && (p.quote == "" || (|p.quote| == 1 && IsQuote(p.quote[0])))
    && p.text != "" && forall i :: 0 <= i < |p.text| ==> !IsQuote(p.text[i])
  }

  /** The way the expression prefers: all the blanks, the quote if there is one, and everything up to the next quote. */
  predicate Greedy(rest: string, p: Parts) {
    MadeOf(rest, p) && !IsSpace((p.quote + p.text)[0]) && (p.more == "" || IsQuote(p.more[0]))
  }

  lemma {:induction false} LeadingSpacesAre(blanks: string, rest: string)
    requires Blank(blanks) && (rest == "" || !IsSpace(rest[0]))
    ensures LeadingSpaces(blanks + rest) == |blanks|
  {
    if blanks == "" {
      assert blanks + rest == rest;
    } else {
      assert (blanks + rest)[1..] == blanks[1..] + rest;
      LeadingSpacesAre(blanks[1..], rest);
    }
  }

  /** `\s*["']?([^"']+)` matches exactly what can be taken apart so. */
  lemma {:induction false} IdRestIff(rest: string)
    ensures IdOf(rest).Some? <==> exists p :: MadeOf(rest, p)
  {
    hide MadeOf;
    if IdOf(rest).Some? {
      if LeadingSpaces(rest) > 0 {
        LastBlank(rest);
      } else {
        WholeText(rest);
      }
    }
    if p :| MadeOf(rest, p) {
      BlankAhead(rest, p);
      if LeadingSpaces(rest) == 0 {
        NoBlanks(rest, p);
      }
    }
  }

  lemma OneBlank(rest: string, blanks: string, c: char, more: string)
    requires rest == blanks + ([c] + more) && Blank(blanks) && IsSpace(c)
    ensures MadeOf(rest, Parts(blanks, "", [c], more))
  {
    hide Blank;
    assert "" + ([c] + more) == [c] + more;
  }

  lemma LastBlank(rest: string)
    requires LeadingSpaces(rest) > 0
    ensures exists p :: MadeOf(rest, p)
  {
    hide LeadingSpaces, IsSpace, IsQuote, MadeOf;
    var k := LeadingSpaces(rest);
    Cut(rest, k - 1, k);
    assert rest[k - 1..k] == [rest[k - 1]];
    OneBlank(rest, rest[..k - 1], rest[k - 1], rest[k..]);
  }

  /** All the blanks, the quote if there is one, and everything up to the next one. */
  function Preferred(rest: string): Parts {
    var k := LeadingSpaces(rest);
    var value := rest[k..];
    var quote := if value != "" && IsQuote(value[0]) then value[..1] else "";
    var bare := value[|quote|..];
    var n := BeforeQuote(bare);
    Parts(rest[..k], quote, bare[..n], bare[n..])
  }

  lemma PreferredGreedy(rest: string)
    requires Preferred(rest).text != ""
    ensures Greedy(rest, Preferred(rest))
  {
    hide LeadingSpaces, BeforeQuote;
    var p, k := Preferred(rest), LeadingSpaces(rest);
    var value := rest[k..];
    PreferredTogether(rest);
    assert (p.quote + p.text)[0] == value[0] == rest[k];
  }

  lemma PreferredTogether(rest: string)
    ensures
      var p := Preferred(rest);
      rest == p.blanks + (p.quote + (p.text + p.more))
  {
    hide LeadingSpaces, BeforeQuote;
    var p, k := Preferred(rest), LeadingSpaces(rest);
    var value := rest[k..];
    Cut(rest, k, k);
    Cut(value, |p.quote|, |p.quote| + |p.text|);
    assert p.text == value[|p.quote|..|p.quote| + |p.text|] && p.more == value[|p.quote| + |p.text|..];
  }

  lemma WholeText(rest: string)
    requires IdOf(rest).Some? && LeadingSpaces(rest) == 0
    ensures exists p :: MadeOf(rest, p)
  {
    PreferredGreedy(rest);
    assert MadeOf(rest, Preferred(rest));
  }

  lemma BlankAhead(rest: string, p: Parts)
    requires MadeOf(rest, p)
    ensures p.blanks == "" || LeadingSpaces(rest) > 0
  {
    if p.blanks != "" {
      assert rest[0] == p.blanks[0];
    }
  }

  lemma NoBlanks(rest: string, p: Parts)
    requires MadeOf(rest, p) && p.blanks == "" && LeadingSpaces(rest) == 0
    ensures IdOf(rest).Some?
  {
    if p.quote == "" {
      assert rest[0] == p.text[0] && rest == p.text + p.more;
    } else {
      assert rest[0] == p.quote[0] && rest[1..] == p.text + p.more;
      assert rest[1] == p.text[0];
    }
  }

  /** Where it can match in the preferred way the group is the text up to the next quote, stripped; otherwise only a blank was
      left for it, and nothing remains. */
  lemma {:induction false} IdTextSays(rest: string)
    ensures forall p :: Greedy(rest, p) ==> IdOf(rest) == Some(Strip(p.text))
    ensures IdOf(rest).Some? && !(exists p :: Greedy(rest, p)) ==> IdOf(rest) == Some("")
  {
    hide Greedy;
    forall p | Greedy(rest, p)
      ensures IdOf(rest) == Some(Strip(p.text))
    {
      GreedyRead(rest, p);
    }
    if Preferred(rest).text != "" {
      PreferredGreedy(rest);
    }
  }

  lemma GreedyRead(rest: string, p: Parts)
    requires Greedy(rest, p)
    ensures IdOf(rest) == Some(Strip(p.text))
  {
    hide Strip;
    var bare := p.text + p.more;
    var value := p.quote + bare;
    assert value[0] == (p.quote + p.text)[0];
    LeadingSpacesAre(p.blanks, value);
    assert rest[|p.blanks|..] == value;
    assert if p.quote == "" then value == bare && !IsQuote(value[0]) else value[1..] == bare && IsQuote(value[0]);
    R.QuoteAt(p.text, p.more);
    assert bare[..|p.text|] == p.text;
  }

  /** `^      operationId:` before all that. */
  lemma IdLineIff(line: string, id: string)
    ensures IdMatch(line) == Some(id) <==> |line| >= 18 && line[..18] == "      operationId:" && IdOf(line[18..]) == Some(id)
  {
  }
}
