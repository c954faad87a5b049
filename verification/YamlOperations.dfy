/** The line parser for the pinned OpenAPI document, a printer for the accepted layout, and exactly which
    documents the parser reads back. */
module YamlOperations {
  import Ascii
  import opened Options

  datatype Row = Row(path: string, method_: string, operation: string)

  // ---------- lines ----------

  datatype Kind = PathLine(path: string) | MethodLine(verb: string) | IdLine(id: string) | Noise

  /** What Python's `\s` matches and `strip()` removes. */
  predicate IsSpace(c: char) {
    || '\t' <= c <= '\r' || '\U{001C}' <= c <= ' ' || c == '\U{0085}' || c == '\U{00A0}' || c == '\U{1680}'
    || '\U{2000}' <= c <= '\U{200A}' || c == '\U{2028}' || c == '\U{2029}' || c == '\U{202F}' || c == '\U{205F}' || c == '\U{3000}'
  }

  predicate IsQuote(c: char) {
    c == '\"' || c == '\''
  }

  predicate Blank(s: string) {
    forall i :: 0 <= i < |s| ==> IsSpace(s[i])
  }

  /** Characters before the first colon. */
  function BeforeColon(s: string): (k: nat)
    ensures k <= |s| && (forall i :: 0 <= i < k ==> s[i] != ':') && (k < |s| ==> s[k] == ':')
  {
    if s == "" || s[0] == ':' then 0 else 1 + BeforeColon(s[1..])
  }

  /** `^(/[^:]+):\s*$` behind the indentation. */
  function PathOf(rest: string): (r: Option<string>)
    ensures r.Some? ==> rest != "" && rest[0] == '/'
  {
    var k := BeforeColon(rest);
    if "/" <= rest && 2 <= k < |rest| && Blank(rest[k + 1..]) then Some(rest[..k]) else None
  }

  /** The five words the parser takes for methods, upper-cased. */
  function Verb(word: string): (r: Option<string>)
    ensures r.Some? ==> word != "" && !IsSpace(word[0])
  {
    if word == "get" || word == "post" || word == "put" || word == "patch" || word == "delete" then Some(Ascii.Upper(word)) else None
  }

  /** `^(get|post|put|patch|delete):\s*$` behind the indentation. */
  function VerbOf(rest: string): (r: Option<string>)
    ensures r.Some? ==> rest != "" && !IsSpace(rest[0])
  {
    var k := BeforeColon(rest);
    if k < |rest| && Blank(rest[k + 1..]) then Verb(rest[..k]) else None
  }

  function LeadingSpaces(s: string): (k: nat)
    ensures k <= |s| && Blank(s[..k]) && (k < |s| ==> !IsSpace(s[k]))
  {
    if s == "" || !IsSpace(s[0]) then 0 else 1 + LeadingSpaces(s[1..])
  }

  function BeforeQuote(s: string): (k: nat)
    ensures k <= |s| && (forall i :: 0 <= i < k ==> !IsQuote(s[i])) && (k < |s| ==> IsQuote(s[k]))
  {
    if s == "" || IsQuote(s[0]) then 0 else 1 + BeforeQuote(s[1..])
  }

  function TrimRight(s: string): string {
    if s != "" && IsSpace(s[|s| - 1]) then TrimRight(s[..|s| - 1]) else s
  }

  /** `strip()` */
  function Strip(s: string): string {
    TrimRight(s[LeadingSpaces(s)..])
  }

  /** `\s*["']?([^"']+)` behind `operationId:`, the group stripped. Where nothing follows the optional quote,
      the expression backs up and takes the last blank. */
  function IdOf(rest: string): Option<string> {
    var k := LeadingSpaces(rest);
    var value := rest[k..];
    var bare := if value != "" && IsQuote(value[0]) then value[1..] else value;
    if BeforeQuote(bare) > 0 then Some(Strip(bare[..BeforeQuote(bare)]))
    else if k > 0 then Some("")
    else None
  }

  const PATH_INDENT := "  "
  const METHOD_INDENT := "    "
  const ID_PREFIX := "      operationId:"

  function PathMatch(line: string): (r: Option<string>)
    ensures r.Some? ==> |line| > 2 && line[2] == '/'
  {
    if PATH_INDENT <= line then PathOf(line[2..]) else None
  }

  function VerbMatch(line: string): (r: Option<string>)
    ensures r.Some? ==> |line| > 4 && line[2] == ' ' && !IsSpace(line[4])
  {
    if METHOD_INDENT <= line then VerbOf(line[4..]) else None
  }

  function IdMatch(line: string): (r: Option<string>)
    ensures r.Some? ==> |line| > 4 && line[2] == line[4] == ' '
  {
    if |line| < 18 || line[..18] != ID_PREFIX then None
    else
      assert line[..18][2] == line[..18][4] == ' ';
      IdOf(line[18..])
  }

  function Classify(line: string): Kind {
    if PathMatch(line).Some? then PathLine(PathMatch(line).value)
    else if VerbMatch(line).Some? then MethodLine(VerbMatch(line).value)
    else if IdMatch(line).Some? then IdLine(IdMatch(line).value)
    else Noise
  }

  // ---------- the parser ----------

  datatype State = State(rows: seq<Row>, path: Option<string>, verb: Option<string>)

  const START := State([], None, None)

  /** The operation name of a method without an id: the verb, one blank and the path. */
  function Untitled(verb: string, path: string): (name: string)
    ensures |name| == |verb| + 1 + |path| && name[..|verb|] == verb && name[|verb|] == ' ' && name[|verb| + 1..] == path
  {
    verb + (" " + path)
  }

  function Step(st: State, kind: Kind): State {
    match kind
    case PathLine(p) => st.(path := Some(p), verb := None)
    case MethodLine(v) =>
      if st.path.None? then st
      else st.(verb := Some(v), rows := st.rows + [Row(st.path.value, v, Untitled(v, st.path.value))])
    case IdLine(id) =>
      if st.rows == [] || st.verb.None? then st
      else st.(rows := st.rows[|st.rows| - 1 := st.rows[|st.rows| - 1].(operation := id)])
    case Noise => st
  }

  function Steps(st: State, kinds: seq<Kind>): State
    decreases |kinds|
  {
    if kinds == [] then st else Steps(Step(st, kinds[0]), kinds[1..])
  }

  function Kinds(classify: string -> Kind, lines: seq<string>): seq<Kind> {
    seq(|lines|, i requires 0 <= i < |lines| => classify(lines[i]))
  }

  /** `yaml_operations` on the lines of the file. */
  function Operations(classify: string -> Kind, lines: seq<string>): seq<Row> {
    Steps(START, Kinds(classify, lines)).rows
  }

  /** The loop of `yaml_operations`. */
  method YamlOperations(lines: seq<string>) returns (rows: seq<Row>)
    ensures rows == Operations(Classify, lines)
  {
    rows := [];
    var currentPath: Option<string> := None;
    var currentMethod: Option<string> := None;
    ghost var kinds := Kinds(Classify, lines);
    for i := 0 to |lines|
      invariant Steps(State(rows, currentPath, currentMethod), kinds[i..]) == Steps(START, kinds)
    {
      var line := lines[i];
      ghost var st := State(rows, currentPath, currentMethod);
      assert kinds[i..][1..] == kinds[i + 1..];
      var pathMatch := PathMatch(line);
      if pathMatch.Some? {
        currentPath, currentMethod := pathMatch, None;
        continue;
      }
      var methodMatch := VerbMatch(line);
      if methodMatch.Some? && currentPath.Some? {
        currentMethod := methodMatch;
        rows := rows + [Row(currentPath.value, currentMethod.value, Untitled(currentMethod.value, currentPath.value))];
        continue;
      }
      var operationMatch := IdMatch(line);
      VerbIsNoId(line);
      if operationMatch.Some? && rows != [] && currentMethod.Some? {
        rows := rows[|rows| - 1 := rows[|rows| - 1].(operation := operationMatch.value)];
      }
    }
  }

  /** A line read as a method line is no operationId line, so falling through without a path is harmless. */
  lemma VerbIsNoId(line: string)
    ensures VerbMatch(line).Some? ==> IdMatch(line).None?
  {
  }
}
