/** A printer for the layout the OpenAPI line parser accepts, and exactly which documents the parser reads back. */
module YamlRoundTrip {
  import Ascii
  import opened Counting
  import opened Lines
  import opened Options
  import opened YamlOperations

  // ---------- documents ----------

  datatype Method = Get | Post | Put | Patch | Delete

  function Word(m: Method): string {
    match m
    case Get => "get"
    case Post => "post"
    case Put => "put"
    case Patch => "patch"
    case Delete => "delete"
  }

  function Upper(m: Method): string {
    Ascii.Upper(Word(m))
  }

  datatype Quoting = Plain | Single | Double

  function Mark(q: Quoting): string {
    match q
    case Plain => ""
    case Single => "'"
    case Double => "\""
  }

  /** One method of a path: its optional operationId, and the lines around it that say nothing to the parser. */
  datatype Operation = Operation(verb: Method, before: seq<string>, quoting: Quoting, id: Option<string>, after: seq<string>)

  datatype Item = Item(path: string, before: seq<string>, operations: seq<Operation>)

  datatype Document = Document(preamble: seq<string>, items: seq<Item>)

  /** How the three kinds of telling lines are written. */
  datatype Printer = Printer(path: string -> string, verb: Method -> string, id: (Quoting, string) -> string)

  function PathText(path: string): string {
    PATH_INDENT + (path + ":")
  }

  function VerbText(m: Method): string {
    METHOD_INDENT + (Word(m) + ":")
  }

  function IdText(q: Quoting, id: string): string {
    ID_PREFIX + (" " + (Mark(q) + (id + Mark(q))))
  }

  const YAML := Printer(PathText, VerbText, IdText)

  function PrintOperation(p: Printer, o: Operation): seq<string> {
    [p.verb(o.verb)] + (o.before + ((if o.id.Some? then [p.id(o.quoting, o.id.value)] else []) + o.after))
  }

  function PrintOperations(p: Printer, os: seq<Operation>): seq<string> {
    if os == [] then [] else PrintOperation(p, os[0]) + PrintOperations(p, os[1..])
  }

  function PrintItems(p: Printer, items: seq<Item>): seq<string> {
    if items == [] then []
    else [p.path(items[0].path)] + (items[0].before + (PrintOperations(p, items[0].operations) + PrintItems(p, items[1..])))
  }

  function Print(p: Printer, d: Document): seq<string> {
    d.preamble + PrintItems(p, d.items)
  }

  // ---------- what the document declares ----------

  function Declared(path: string, o: Operation): Row {
    Row(path, Upper(o.verb), if o.id.Some? then o.id.value else Untitled(Upper(o.verb), path))
  }

  function ItemRows(item: Item): seq<Row> {
    seq(|item.operations|, i requires 0 <= i < |item.operations| => Declared(item.path, item.operations[i]))
  }

  function Rows(items: seq<Item>): seq<Row> {
    if items == [] then [] else ItemRows(items[0]) + Rows(items[1..])
  }

  // ---------- which documents are written in the layout, and which are read back ----------

  /** The line says nothing to the parser, nor does any piece `splitlines` makes of it. */
  ghost predicate SilentLine(classify: string -> Kind, line: string) {
    classify(line) == Noise && forall i :: 0 <= i < |SplitLines(line + "\n")| ==> classify(SplitLines(line + "\n")[i]) == Noise
  }

  ghost predicate Silent(classify: string -> Kind, lines: seq<string>) {
    forall i :: 0 <= i < |lines| ==> SilentLine(classify, lines[i])
  }

  ghost predicate OperationLaidOut(classify: string -> Kind, o: Operation) {
    Silent(classify, o.before) && Silent(classify, o.after)
  }

  /** Every path starts with a slash, as the OpenAPI specification demands, and the filler lines are filler. A path
      nothing stands below must not come apart into other lines; about the other paths and the operationIds nothing
      is asked. */
  ghost predicate ItemLaidOut(classify: string -> Kind, item: Item) {
    && "/" <= item.path
    && (item.operations == [] ==> SeparatorFree(item.path))
    && Silent(classify, item.before)
    && forall i :: 0 <= i < |item.operations| ==> OperationLaidOut(classify, item.operations[i])
  }

  ghost predicate LaidOut(classify: string -> Kind, d: Document) {
    && Silent(classify, d.preamble)
    && forall i :: 0 <= i < |d.items| ==> ItemLaidOut(classify, d.items[i])
  }

  /** The parser knows neither the root path nor a path with a colon. */
  predicate KnownPath(path: string) {
    |path| >= 2 && ':' !in path
  }

  /** And `splitlines` must leave the line of a path whole. */
  predicate ReadablePath(path: string) {
    KnownPath(path) && SeparatorFree(path)
  }

  predicate Trimmed(s: string) {
    s != "" ==> !IsSpace(s[0]) && !IsSpace(s[|s| - 1])
  }

  predicate Unquoted(s: string) {
    forall i :: 0 <= i < |s| ==> !IsQuote(s[i])
  }

  /** From its line an operationId comes back when it holds no quote and no blank at either end. */
  predicate PlainId(id: string) {
    Unquoted(id) && Trimmed(id)
  }

  /** From the text only when it holds no line separator either. */
  predicate ReadableId(id: string) {
    PlainId(id) && SeparatorFree(id)
  }

  predicate ReadableOperation(o: Operation) {
    o.id.Some? ==> ReadableId(o.id.value)
  }

  predicate ReadableItem(item: Item) {
    && (item.operations != [] ==> ReadablePath(item.path))
    && forall i :: 0 <= i < |item.operations| ==> ReadableOperation(item.operations[i])
  }

  predicate Readable(items: seq<Item>) {
    forall i :: 0 <= i < |items| ==> ReadableItem(items[i])
  }

  // ---------- how single lines are read ----------

  /** Nothing read from the line holds a separator. */
  predicate FreeKind(k: Kind) {
    match k
    case PathLine(path) => SeparatorFree(path)
    case MethodLine(verb) => SeparatorFree(verb)
    case IdLine(id) => SeparatorFree(id)
    case Noise => true
  }

  /** How a classifier reads what a printer writes: the only facts about texts the results below need. */
  ghost predicate Reads(classify: string -> Kind, p: Printer) {
    && (forall path :: "/" <= path ==> classify(p.path(path)) == if KnownPath(path) then PathLine(path) else Noise)
    && (forall m :: classify(p.verb(m)) == MethodLine(Upper(m)))
    && (forall q, id :: classify(p.id(q, id)).IdLine?)
    && (forall q, id :: classify(p.id(q, id)).id == id <==> PlainId(id))
    && (forall line :: SeparatorFree(line) ==> FreeKind(classify(line)))
    && (forall path :: SeparatorFree(path) ==> SeparatorFree(p.path(path)))
    && (forall m :: SeparatorFree(p.verb(m)))
    && (forall q, id :: SeparatorFree(id) ==> SeparatorFree(p.id(q, id)))
  }

  lemma {:induction false} ColonAt(a: string, b: string)
    requires ':' !in a
    ensures BeforeColon(a + (":" + b)) == |a|
  {
    var s := a + (":" + b);
    if a == "" {
      assert s[0] == ':';
    } else {
      assert s[1..] == a[1..] + (":" + b);
      ColonAt(a[1..], b);
    }
  }

  lemma PathOfRead(path: string)
    requires "/" <= path
    ensures PathOf(path + ":") == if KnownPath(path) then Some(path) else None
  {
    var rest := path + ":";
    assert rest[0] == '/';
    if ':' !in path {
      ColonAt(path, "");
      assert rest == path + (":" + "");
      assert rest[..|path|] == path && rest[|path| + 1..] == "";
    } else {
      var i :| 0 <= i < |path| && path[i] == ':';
      assert rest[i] == ':';
      var after := rest[BeforeColon(rest) + 1..];
      assert after[|after| - 1] == ':';
    }
  }

  lemma PathRead(path: string)
    requires "/" <= path
    ensures PathMatch(PathText(path)) == if KnownPath(path) then Some(path) else None
    ensures VerbMatch(PathText(path)) == None && IdMatch(PathText(path)) == None
  {
    hide PathOf, KnownPath;
    PathOfRead(path);
    assert PathText(path)[2..] == path + ":";
    assert PathText(path)[2] == path[0] == '/';
  }

  lemma WordRead(m: Method)
    ensures Verb(Word(m)) == Some(Upper(m)) && ':' !in Word(m)
  {
  }

  lemma WordOfVerb(word: string)
    requires ':' !in word
    ensures VerbOf(word + ":") == Verb(word)
  {
    var rest := word + ":";
    ColonAt(word, "");
    assert rest == word + (":" + "");
    assert rest[..|word|] == word && rest[|word| + 1..] == "";
  }

  lemma VerbRead(m: Method)
    ensures PathMatch(VerbText(m)) == None && VerbMatch(VerbText(m)) == Some(Upper(m))
  {
    hide Verb, Word, Upper, VerbOf, PathOf;
    WordRead(m);
    WordOfVerb(Word(m));
    var line := VerbText(m);
    assert line[4..] == Word(m) + ":";
    assert line[2] == ' ';
  }

  // ---------- operationIds ----------

  lemma {:induction false} TrimRightEnds(s: string)
    ensures TrimRight(s) <= s
    ensures TrimRight(s) != "" ==> !IsSpace(TrimRight(s)[|TrimRight(s)| - 1])
    ensures s == "" || !IsSpace(s[|s| - 1]) ==> TrimRight(s) == s
  {
    if s != "" && IsSpace(s[|s| - 1]) {
      TrimRightEnds(s[..|s| - 1]);
    }
  }

  lemma StripTrims(s: string)
    ensures Trimmed(Strip(s))
    ensures Unquoted(s) ==> Unquoted(Strip(s))
    ensures Trimmed(s) ==> Strip(s) == s
  {
    TrimRightEnds(s[LeadingSpaces(s)..]);
  }

  lemma {:induction false} QuoteAt(a: string, b: string)
    requires Unquoted(a) && (b == "" || IsQuote(b[0]))
    ensures BeforeQuote(a + b) == |a|
  {
    if a == "" {
      assert a + b == b;
    } else {
      assert (a + b)[1..] == a[1..] + b;
      QuoteAt(a[1..], b);
    }
  }

  /** Whatever is read as an operationId has no quote and no blank at its ends. */
  lemma IdsArePlain(rest: string)
    ensures IdOf(rest).Some? ==> PlainId(IdOf(rest).value)
    ensures rest != "" && IsSpace(rest[0]) ==> IdOf(rest).Some?
  {
    var value := rest[LeadingSpaces(rest)..];
    var bare := if value != "" && IsQuote(value[0]) then value[1..] else value;
    StripTrims(bare[..BeforeQuote(bare)]);
  }

  lemma OneSpace(s: string)
    requires s == "" || !IsSpace(s[0])
    ensures LeadingSpaces(" " + s) == 1 && (" " + s)[1..] == s
  {
    assert (" " + s)[1..] == s;
  }

  lemma PlainIdRead(id: string)
    requires PlainId(id)
    ensures IdOf(" " + id) == Some(id)
  {
    OneSpace(id);
    QuoteAt(id, "");
    assert id + "" == id;
    StripTrims(id);
  }

  lemma QuotedIdRead(id: string, mark: string)
    requires PlainId(id) && |mark| == 1 && IsQuote(mark[0])
    ensures IdOf(" " + (mark + (id + mark))) == Some(id)
  {
    var value := mark + (id + mark);
    OneSpace(value);
    assert value[1..] == id + mark;
    QuoteAt(id, mark);
    assert (id + mark)[..|id|] == id;
    StripTrims(id);
  }

  lemma IdLineRead(q: Quoting, id: string)
    ensures
      var line, rest := IdText(q, id), " " + (Mark(q) + (id + Mark(q)));
      && |line| > 4 && line[2] == line[4] == ' ' && IdMatch(line) == IdOf(rest)
  {
    hide IdOf, Mark;
    var line, rest := IdText(q, id), " " + (Mark(q) + (id + Mark(q)));
    assert line[..18] == ID_PREFIX && line[18..] == rest;
    assert line[..18][2] == line[..18][4] == ' ';
  }

  lemma IdRead(q: Quoting, id: string)
    ensures PathMatch(IdText(q, id)) == None && VerbMatch(IdText(q, id)) == None
    ensures IdMatch(IdText(q, id)).Some?
    ensures IdMatch(IdText(q, id)) == Some(id) <==> PlainId(id)
  {
    hide IdText, IdMatch;
    var rest := " " + (Mark(q) + (id + Mark(q)));
    IdLineRead(q, id);
    IdsArePlain(rest);
    if PlainId(id) {
      if q == Plain {
        assert "" + (id + "") == id;
        PlainIdRead(id);
      } else {
        QuotedIdRead(id, Mark(q));
      }
    }
  }

  lemma StripFree(s: string)
    requires SeparatorFree(s)
    ensures SeparatorFree(Strip(s))
  {
    TrimRightEnds(s[LeadingSpaces(s)..]);
  }

  lemma IdOfFree(rest: string)
    requires SeparatorFree(rest)
    ensures IdOf(rest).Some? ==> SeparatorFree(IdOf(rest).value)
  {
    var value := rest[LeadingSpaces(rest)..];
    var bare := if value != "" && IsQuote(value[0]) then value[1..] else value;
    StripFree(bare[..BeforeQuote(bare)]);
  }

  lemma VerbFree(word: string)
    ensures Verb(word).Some? ==> SeparatorFree(Verb(word).value)
  {
    Ascii.UpperSays(word);
  }

  lemma ReadsFree(line: string)
    requires SeparatorFree(line)
    ensures FreeKind(Classify(line))
  {
    hide Verb, IdOf;
    if METHOD_INDENT <= line {
      VerbFree(line[4..][..BeforeColon(line[4..])]);
    }
    if ID_PREFIX <= line {
      IdOfFree(line[18..]);
    }
  }

  lemma VerbTextFree(m: Method)
    ensures SeparatorFree(VerbText(m))
  {
  }

  lemma IdTextFree(q: Quoting, id: string)
    requires SeparatorFree(id)
    ensures SeparatorFree(IdText(q, id))
  {
  }

  /** The expressions of the parser read the printed layout as `Reads` says. */
  lemma {:induction false} ClassifyReadsYaml()
    ensures Reads(Classify, YAML)
  {
    forall path | "/" <= path
      ensures Classify(PathText(path)) == if KnownPath(path) then PathLine(path) else Noise
    {
      PathRead(path);
    }
    forall m
      ensures Classify(VerbText(m)) == MethodLine(Upper(m))
    {
      VerbRead(m);
    }
    forall q, id
      ensures Classify(IdText(q, id)).IdLine? && (Classify(IdText(q, id)).id == id <==> PlainId(id))
    {
      IdRead(q, id);
    }
    forall line | SeparatorFree(line)
      ensures FreeKind(Classify(line))
    {
      ReadsFree(line);
    }
    forall path | SeparatorFree(path)
      ensures SeparatorFree(PathText(path))
    {
    }
    forall m
      ensures SeparatorFree(VerbText(m))
    {
      VerbTextFree(m);
    }
    forall q, id | SeparatorFree(id)
      ensures SeparatorFree(IdText(q, id))
    {
      IdTextFree(q, id);
    }
  }

  // ---------- what the parser makes of a document ----------

  /** The row the parser makes of an operation while it believes itself below `path`. */
  function Understood(classify: string -> Kind, p: Printer, path: string, o: Operation): Row {
    Row(path, Upper(o.verb),
        if o.id.Some? && classify(p.id(o.quoting, o.id.value)).IdLine? then classify(p.id(o.quoting, o.id.value)).id
        else Untitled(Upper(o.verb), path))
  }

  function UnderstoodAll(classify: string -> Kind, p: Printer, path: string, os: seq<Operation>): seq<Row> {
    seq(|os|, i requires 0 <= i < |os| => Understood(classify, p, path, os[i]))
  }

  function Current(item: Item, path: Option<string>): Option<string> {
    if KnownPath(item.path) then Some(item.path) else path
  }

  function Below(classify: string -> Kind, p: Printer, item: Item, now: Option<string>): seq<Row> {
    if now.None? then [] else UnderstoodAll(classify, p, now.value, item.operations)
  }

  /** Operations below an unreadable path go to the path before it; without one they are dropped. */
  function UnderstoodItems(classify: string -> Kind, p: Printer, items: seq<Item>, path: Option<string>): seq<Row> {
    if items == [] then []
    else
      var now := Current(items[0], path);
      Below(classify, p, items[0], now) + UnderstoodItems(classify, p, items[1..], now)
  }

  lemma {:induction false} StepsConcat(st: State, a: seq<Kind>, b: seq<Kind>)
    ensures Steps(st, a + b) == Steps(Steps(st, a), b)
    decreases |a|
  {
    if a == [] {
      assert a + b == b;
    } else {
      assert (a + b)[1..] == a[1..] + b;
      StepsConcat(Step(st, a[0]), a[1..], b);
    }
  }

  /** The parser on the lines of a file, from any state on. */
  function Parse(classify: string -> Kind, st: State, lines: seq<string>): State {
    Steps(st, Kinds(classify, lines))
  }

  lemma ParseConcat(classify: string -> Kind, st: State, a: seq<string>, b: seq<string>)
    ensures Parse(classify, st, a + b) == Parse(classify, Parse(classify, st, a), b)
  {
    assert Kinds(classify, a + b) == Kinds(classify, a) + Kinds(classify, b);
    StepsConcat(st, Kinds(classify, a), Kinds(classify, b));
  }

  lemma ParseOne(classify: string -> Kind, st: State, line: string)
    ensures Parse(classify, st, [line]) == Step(st, classify(line))
  {
    assert Kinds(classify, [line]) == [classify(line)];
    assert Kinds(classify, [line])[1..] == [];
    assert Steps(Step(st, classify(line)), []) == Step(st, classify(line));
  }

  lemma {:induction false} ParseSilent(classify: string -> Kind, st: State, lines: seq<string>)
    requires Silent(classify, lines)
    ensures Parse(classify, st, lines) == st
    decreases |lines|
  {
    if lines != [] {
      assert Kinds(classify, lines)[1..] == Kinds(classify, lines[1..]);
      ParseSilent(classify, st, lines[1..]);
    }
  }

  lemma ParseNothing(classify: string -> Kind, st: State)
    ensures Parse(classify, st, []) == st
  {
    ParseSilent(classify, st, []);
  }

  /** Before the first path nothing has been recorded. */
  predicate Plausible(st: State) {
    st.path.None? ==> st == START
  }

  lemma ParseTail(classify: string -> Kind, p: Printer, st: State, o: Operation)
    requires OperationLaidOut(classify, o)
    requires o.id.Some? ==> classify(p.id(o.quoting, o.id.value)).IdLine?
    ensures Parse(classify, st, o.before + ((if o.id.Some? then [p.id(o.quoting, o.id.value)] else []) + o.after))
         == if o.id.Some? then Step(st, classify(p.id(o.quoting, o.id.value))) else st
  {
    var ids := if o.id.Some? then [p.id(o.quoting, o.id.value)] else [];
    ParseConcat(classify, st, o.before, ids + o.after);
    ParseSilent(classify, st, o.before);
    ParseConcat(classify, st, ids, o.after);
    if o.id.Some? {
      ParseOne(classify, st, ids[0]);
    } else {
      ParseSilent(classify, st, []);
    }
    ParseSilent(classify, Parse(classify, st, ids), o.after);
  }

  lemma ParseOperation(classify: string -> Kind, p: Printer, st: State, o: Operation)
    requires Reads(classify, p) && OperationLaidOut(classify, o) && Plausible(st)
    ensures var end := Parse(classify, st, PrintOperation(p, o));
            && end.path == st.path && Plausible(end)
            && end.rows == if st.path.None? then st.rows else st.rows + [Understood(classify, p, st.path.value, o)]
  {
    var head := p.verb(o.verb);
    ParseConcat(classify, st, [head], PrintOperation(p, o)[1..]);
    ParseOne(classify, st, head);
    assert classify(head) == MethodLine(Upper(o.verb));
    ParseTail(classify, p, Step(st, classify(head)), o);
  }

  lemma {:induction false} ParseOperations(classify: string -> Kind, p: Printer, st: State, os: seq<Operation>)
    requires Reads(classify, p) && Plausible(st)
    requires forall i :: 0 <= i < |os| ==> OperationLaidOut(classify, os[i])
    ensures var end := Parse(classify, st, PrintOperations(p, os));
            && end.path == st.path && Plausible(end)
            && end.rows == if st.path.None? then st.rows else st.rows + UnderstoodAll(classify, p, st.path.value, os)
    decreases |os|
  {
    hide Reads, Parse, OperationLaidOut, Understood, PrintOperation;
    if os == [] {
      ParseNothing(classify, st);
    } else {
      var next := Parse(classify, st, PrintOperation(p, os[0]));
      ParseConcat(classify, st, PrintOperation(p, os[0]), PrintOperations(p, os[1..]));
      ParseOperation(classify, p, st, os[0]);
      ParseOperations(classify, p, next, os[1..]);
      if st.path.Some? {
        assert UnderstoodAll(classify, p, st.path.value, os)
            == [Understood(classify, p, st.path.value, os[0])] + UnderstoodAll(classify, p, st.path.value, os[1..]);
      }
    }
  }

  lemma ParseItem(classify: string -> Kind, p: Printer, st: State, item: Item, rest: seq<string>)
    returns (end: State)
    requires Reads(classify, p) && Plausible(st) && ItemLaidOut(classify, item)
    ensures Parse(classify, st, [p.path(item.path)] + (item.before + (PrintOperations(p, item.operations) + rest)))
         == Parse(classify, end, rest)
    ensures end.path == Current(item, st.path) && Plausible(end)
    ensures end.rows == st.rows + Below(classify, p, item, end.path)
  {
    var tail := PrintOperations(p, item.operations) + rest;
    var below := Step(st, classify(p.path(item.path)));
    ParseConcat(classify, st, [p.path(item.path)], item.before + tail);
    ParseOne(classify, st, p.path(item.path));
    ParseConcat(classify, below, item.before, tail);
    ParseSilent(classify, below, item.before);
    ParseConcat(classify, below, PrintOperations(p, item.operations), rest);
    ParseOperations(classify, p, below, item.operations);
    end := Parse(classify, below, PrintOperations(p, item.operations));
  }

  lemma {:induction false} ParseItems(classify: string -> Kind, p: Printer, st: State, items: seq<Item>)
    requires Reads(classify, p) && Plausible(st)
    requires forall i :: 0 <= i < |items| ==> ItemLaidOut(classify, items[i])
    ensures Parse(classify, st, PrintItems(p, items)).rows == st.rows + UnderstoodItems(classify, p, items, st.path)
    decreases |items|
  {
    hide Reads, Parse, ItemLaidOut, Understood, PrintOperations, Current, Below;
    if items == [] {
      ParseNothing(classify, st);
    } else {
      var end := ParseItem(classify, p, st, items[0], PrintItems(p, items[1..]));
      ParseItems(classify, p, end, items[1..]);
      var below, more := Below(classify, p, items[0], end.path), UnderstoodItems(classify, p, items[1..], end.path);
      assert (st.rows + below) + more == st.rows + (below + more);
    }
  }

  /** What the parser returns for any document in the layout, readable or not. */
  lemma OperationsOfPrint(classify: string -> Kind, p: Printer, d: Document)
    requires Reads(classify, p) && LaidOut(classify, d)
    ensures Operations(classify, Print(p, d)) == UnderstoodItems(classify, p, d.items, None)
  {
    hide Reads, ItemLaidOut, Silent, PrintItems, UnderstoodItems, Steps;
    ParseConcat(classify, START, d.preamble, PrintItems(p, d.items));
    ParseSilent(classify, START, d.preamble);
    ParseItems(classify, p, START, d.items);
  }

  // ---------- when that is what the document declares ----------

  predicate PlainOperation(o: Operation) {
    o.id.Some? ==> PlainId(o.id.value)
  }

  predicate PlainItem(item: Item) {
    && (item.operations != [] ==> KnownPath(item.path))
    && forall i :: 0 <= i < |item.operations| ==> PlainOperation(item.operations[i])
  }

  /** What would be readable if lines never came apart. */
  predicate PlainItems(items: seq<Item>) {
    forall i :: 0 <= i < |items| ==> PlainItem(items[i])
  }

  lemma RowsOfItem(classify: string -> Kind, p: Printer, item: Item, path: string)
    requires Reads(classify, p)
    requires KnownPath(item.path) ==> path == item.path
    requires !KnownPath(item.path) ==> path != item.path
    ensures UnderstoodAll(classify, p, path, item.operations) == ItemRows(item) <==> PlainItem(item)
  {
    var got, want := UnderstoodAll(classify, p, path, item.operations), ItemRows(item);
    assert |got| == |want| == |item.operations|;
    assert forall i :: 0 <= i < |want| ==> want[i] == Declared(item.path, item.operations[i]);
    if got == want {
      forall i | 0 <= i < |item.operations|
        ensures KnownPath(item.path) && PlainOperation(item.operations[i])
      {
        assert got[i] == want[i];
      }
      assert item.operations != [] ==> got[0] == want[0];
    } else {
      var i :| 0 <= i < |got| && got[i] != want[i];
      assert !KnownPath(item.path) || !PlainOperation(item.operations[i]);
    }
  }

  lemma {:induction false} NeverTooMany(classify: string -> Kind, p: Printer, items: seq<Item>, path: Option<string>)
    ensures |UnderstoodItems(classify, p, items, path)| <= |Rows(items)|
    decreases |items|
  {
    if items != [] {
      NeverTooMany(classify, p, items[1..], Current(items[0], path));
    }
  }

  lemma PlainHead(items: seq<Item>)
    requires items != []
    ensures PlainItems(items) <==> PlainItem(items[0]) && PlainItems(items[1..])
  {
    assert forall i :: 1 <= i < |items| ==> items[i] == items[1..][i - 1];
  }

  lemma NoPathYet(item: Item, got: seq<Row>, want: seq<Row>)
    requires !KnownPath(item.path) && |got| <= |want|
    ensures got == ItemRows(item) + want <==> PlainItem(item) && got == want
  {
    assert |ItemRows(item)| == |item.operations|;
    if item.operations == [] {
      assert ItemRows(item) + want == want;
    }
  }

  lemma {:induction false} UnderstoodIffPlain(classify: string -> Kind, p: Printer, items: seq<Item>, path: Option<string>)
    requires Reads(classify, p)
    requires path.Some? ==> KnownPath(path.value)
    ensures UnderstoodItems(classify, p, items, path) == Rows(items) <==> PlainItems(items)
    decreases |items|
  {
    if items != [] {
      var item, rest := items[0], items[1..];
      var now := Current(item, path);
      PlainHead(items);
      UnderstoodIffPlain(classify, p, rest, now);
      NeverTooMany(classify, p, rest, now);
      if now.Some? {
        RowsOfItem(classify, p, item, now.value);
        SamePieces(Below(classify, p, item, now), UnderstoodItems(classify, p, rest, now), ItemRows(item), Rows(rest));
      } else {
        NoPathYet(item, UnderstoodItems(classify, p, rest, now), Rows(rest));
      }
    }
  }

  /** From its printed lines the parser reads back exactly the plain documents. */
  lemma {:induction false} LinesInvertedIff(classify: string -> Kind, p: Printer, d: Document)
    requires Reads(classify, p) && LaidOut(classify, d)
    ensures Operations(classify, Print(p, d)) == Rows(d.items) <==> PlainItems(d.items)
  {
    OperationsOfPrint(classify, p, d);
    UnderstoodIffPlain(classify, p, d.items, None);
  }

  // ---------- from text ----------

  /** `splitlines` leaves the line whole, or all it makes of it says nothing. */
  ghost predicate Quiet(classify: string -> Kind, line: string) {
    SeparatorFree(line) || SilentLine(classify, line)
  }

  ghost predicate AllQuiet(classify: string -> Kind, lines: seq<string>) {
    forall i :: 0 <= i < |lines| ==> Quiet(classify, lines[i])
  }

  lemma {:induction false} ParseNoise(classify: string -> Kind, st: State, lines: seq<string>)
    requires forall i :: 0 <= i < |lines| ==> classify(lines[i]) == Noise
    ensures Parse(classify, st, lines) == st
    decreases |lines|
  {
    if lines != [] {
      assert Kinds(classify, lines)[1..] == Kinds(classify, lines[1..]);
      ParseNoise(classify, st, lines[1..]);
    }
  }

  /** One quiet line says in the text what it says alone. */
  lemma ParseQuietLine(classify: string -> Kind, st: State, line: string, rest: seq<string>)
    requires Quiet(classify, line)
    ensures Parse(classify, st, SplitLines(Fed([line] + rest))) == Parse(classify, Step(st, classify(line)), SplitLines(Fed(rest)))
  {
    hide SplitLines, Parse, Fed;
    FedMore(line, rest);
    SplitLineOff(line, "\n", Fed(rest));
    ParseConcat(classify, st, SplitLines(line + "\n"), SplitLines(Fed(rest)));
    if SeparatorFree(line) {
      SplitFed(line, []);
      FedOne(line);
      FedNothing();
      assert [line] + [] == [line];
      ParseOne(classify, st, line);
    } else {
      ParseNoise(classify, st, SplitLines(line + "\n"));
    }
  }

  lemma {:induction false} ParseQuiet(classify: string -> Kind, st: State, lines: seq<string>)
    requires AllQuiet(classify, lines)
    ensures Parse(classify, st, SplitLines(Fed(lines))) == Parse(classify, st, lines)
    decreases |lines|
  {
    hide SplitLines, Fed, Quiet;
    if lines == [] {
      FedNothing();
    } else {
      assert lines == [lines[0]] + lines[1..];
      ParseQuietLine(classify, st, lines[0], lines[1..]);
      ParseConcat(classify, st, [lines[0]], lines[1..]);
      ParseOne(classify, st, lines[0]);
      ParseQuiet(classify, Step(st, classify(lines[0])), lines[1..]);
    }
  }

  lemma FedNothing()
    ensures SplitLines(Fed([])) == []
  {
  }

  // ---------- what a text can yield ----------

  predicate FreeRow(r: Row) {
    SeparatorFree(r.path) && SeparatorFree(r.operation)
  }

  ghost predicate FreeState(st: State) {
    && (forall i :: 0 <= i < |st.rows| ==> FreeRow(st.rows[i]))
    && (st.path.Some? ==> SeparatorFree(st.path.value))
  }

  lemma StepFree(st: State, k: Kind)
    requires FreeState(st) && FreeKind(k)
    ensures FreeState(Step(st, k))
  {
    if k.MethodLine? && st.path.Some? {
    }
  }

  lemma {:induction false} StepsFree(st: State, kinds: seq<Kind>)
    requires FreeState(st) && forall i :: 0 <= i < |kinds| ==> FreeKind(kinds[i])
    ensures FreeState(Steps(st, kinds))
    decreases |kinds|
  {
    if kinds != [] {
      StepFree(st, kinds[0]);
      StepsFree(Step(st, kinds[0]), kinds[1..]);
    }
  }

  /** No row read from a text holds a line separator. */
  lemma TextRowsFree(classify: string -> Kind, p: Printer, text: string)
    requires Reads(classify, p)
    ensures forall r :: r in Operations(classify, SplitLines(text)) ==> FreeRow(r)
  {
    var lines := SplitLines(text);
    SplitIsSeparatorFree(text);
    var kinds := Kinds(classify, lines);
    assert forall i :: 0 <= i < |kinds| ==> kinds[i] == classify(lines[i]);
    StepsFree(START, kinds);
  }

  lemma {:induction false} DeclaredListed(items: seq<Item>, i: nat, k: nat)
    requires i < |items| && k < |items[i].operations|
    ensures Declared(items[i].path, items[i].operations[k]) in Rows(items)
  {
    hide Declared;
    if i == 0 {
      assert ItemRows(items[0])[k] == Declared(items[0].path, items[0].operations[k]);
    } else {
      DeclaredListed(items[1..], i - 1, k);
    }
  }

  predicate FreeOperation(o: Operation) {
    o.id.Some? ==> SeparatorFree(o.id.value)
  }

  /** Neither the path nor an operationId of the item holds a separator. */
  predicate FreeItem(item: Item) {
    SeparatorFree(item.path) && forall k :: 0 <= k < |item.operations| ==> FreeOperation(item.operations[k])
  }

  /** A separator in a path or an operationId never comes back. */
  lemma SeparatorLost(classify: string -> Kind, p: Printer, items: seq<Item>, text: string, i: nat)
    requires Reads(classify, p) && i < |items| && items[i].operations != [] && !FreeItem(items[i])
    ensures Operations(classify, SplitLines(text)) != Rows(items)
  {
    hide Reads, SplitLines, Rows, Operations;
    TextRowsFree(classify, p, text);
    var k: nat :| k < |items[i].operations| && (SeparatorFree(items[i].path) ==> !FreeOperation(items[i].operations[k]));
    DeclaredListed(items, i, k);
    assert !FreeRow(Declared(items[i].path, items[i].operations[k]));
  }

  // ---------- every line quiet ----------

  lemma SilentQuiet(classify: string -> Kind, lines: seq<string>)
    requires Silent(classify, lines)
    ensures AllQuiet(classify, lines)
  {
  }

  lemma OperationQuiet(classify: string -> Kind, p: Printer, o: Operation)
    requires Reads(classify, p) && OperationLaidOut(classify, o) && FreeOperation(o)
    ensures AllQuiet(classify, PrintOperation(p, o))
  {
    var ids := if o.id.Some? then [p.id(o.quoting, o.id.value)] else [];
    SilentQuiet(classify, o.before);
    SilentQuiet(classify, o.after);
    assert SeparatorFree(p.verb(o.verb));
    assert AllQuiet(classify, ids);
  }

  lemma {:induction false} OperationsQuiet(classify: string -> Kind, p: Printer, os: seq<Operation>)
    requires Reads(classify, p)
    requires forall i :: 0 <= i < |os| ==> OperationLaidOut(classify, os[i]) && FreeOperation(os[i])
    ensures AllQuiet(classify, PrintOperations(p, os))
  {
    hide Reads, Quiet, PrintOperation, OperationLaidOut;
    if os != [] {
      OperationQuiet(classify, p, os[0]);
      OperationsQuiet(classify, p, os[1..]);
    }
  }

  lemma {:induction false} ItemsQuiet(classify: string -> Kind, p: Printer, items: seq<Item>)
    requires Reads(classify, p)
    requires forall i :: 0 <= i < |items| ==> ItemLaidOut(classify, items[i]) && FreeItem(items[i])
    ensures AllQuiet(classify, PrintItems(p, items))
  {
    if items != [] {
      var item, more := items[0], PrintItems(p, items[1..]);
      OperationsQuiet(classify, p, item.operations);
      ItemsQuiet(classify, p, items[1..]);
      SilentQuiet(classify, item.before);
      assert SeparatorFree(p.path(item.path));
      assert AllQuiet(classify, [p.path(item.path)]);
    }
  }

  lemma FreeTextParsed(classify: string -> Kind, p: Printer, d: Document)
    requires Reads(classify, p) && LaidOut(classify, d)
    requires forall i :: 0 <= i < |d.items| ==> FreeItem(d.items[i])
    ensures Operations(classify, SplitLines(Fed(Print(p, d)))) == Operations(classify, Print(p, d))
  {
    hide Reads, Quiet, SplitLines, Fed, ItemLaidOut, SilentLine;
    ItemsQuiet(classify, p, d.items);
    SilentQuiet(classify, d.preamble);
    ParseQuiet(classify, START, Print(p, d));
  }

  /** From the text of a document the parser returns exactly the declared rows if and only if the document is readable:
      no operation below the root path or a path with a colon, no operationId with a quote or a blank at an end, and no
      line separator in either. */
  lemma {:induction false} ParserInvertsPrinterIff(classify: string -> Kind, p: Printer, d: Document)
    requires Reads(classify, p) && LaidOut(classify, d)
    ensures Operations(classify, SplitLines(Fed(Print(p, d)))) == Rows(d.items) <==> Readable(d.items)
  {
    hide Reads, SplitLines, Fed, Print, Rows, Operations, SilentLine;
    if i: nat :| i < |d.items| && d.items[i].operations != [] && !FreeItem(d.items[i]) {
      SeparatorLost(classify, p, d.items, Fed(Print(p, d)), i);
      NotFreeNotReadable(d.items[i]);
    } else {
      forall i | 0 <= i < |d.items|
        ensures FreeItem(d.items[i]) && (ReadableItem(d.items[i]) <==> PlainItem(d.items[i]))
      {
        assert ItemLaidOut(classify, d.items[i]);
        FreeReadableIff(d.items[i]);
      }
      FreeTextParsed(classify, p, d);
      LinesInvertedIff(classify, p, d);
    }
  }

  lemma NotFreeNotReadable(item: Item)
    requires item.operations != [] && !FreeItem(item)
    ensures !ReadableItem(item)
  {
    if SeparatorFree(item.path) {
      var k :| 0 <= k < |item.operations| && !FreeOperation(item.operations[k]);
      assert !ReadableOperation(item.operations[k]);
    }
  }

  lemma FreeReadableIff(item: Item)
    requires item.operations == [] ==> SeparatorFree(item.path)
    requires item.operations != [] ==> FreeItem(item)
    ensures FreeItem(item)
    ensures ReadableItem(item) <==> PlainItem(item)
  {
    if FreeItem(item) {
      assert forall k :: 0 <= k < |item.operations| ==> FreeOperation(item.operations[k]);
      assert forall k :: 0 <= k < |item.operations| ==> (ReadableOperation(item.operations[k]) <==> PlainOperation(item.operations[k]));
    }
  }

  lemma {:induction false} YamlInvertsPrinterIff(d: Document)
    requires LaidOut(Classify, d)
    ensures Operations(Classify, SplitLines(Fed(Print(YAML, d)))) == Rows(d.items) <==> Readable(d.items)
  {
    ClassifyReadsYaml();
    ParserInvertsPrinterIff(Classify, YAML, d);
  }

  // ---------- an operationId that belongs to no row ----------

  function WithLastId(rows: seq<Row>, id: string): seq<Row>
    requires rows != []
  {
    rows[..|rows| - 1] + [rows[|rows| - 1].(operation := id)]
  }

  /** A method word the parser does not know leaves no row, yet an operationId below it is still taken: it replaces
      that of the last row, whatever stands between. */
  lemma StrayIdOverwrites(classify: string -> Kind, lines: seq<string>, between: seq<string>, line: string)
    requires Silent(classify, between) && classify(line).IdLine?
    requires Operations(classify, lines) != [] && Parse(classify, START, lines).verb.Some?
    ensures Operations(classify, lines + (between + [line])) == WithLastId(Operations(classify, lines), classify(line).id)
  {
    var st := Parse(classify, START, lines);
    ParseConcat(classify, START, lines, between + [line]);
    ParseConcat(classify, st, between, [line]);
    ParseSilent(classify, st, between);
    ParseOne(classify, st, line);
  }

  /** Such a line, for `head`, `options` or `trace` say, is filler to the parser. */
  lemma UnknownVerbIsSilent(word: string)
    requires word != "" && !IsSpace(word[0]) && ':' !in word && Verb(word).None?
    ensures Classify(METHOD_INDENT + (word + ":")) == Noise
  {
    hide Verb, VerbOf, PathOf;
    var line := METHOD_INDENT + (word + ":");
    WordOfVerb(word);
    assert line[4..] == word + ":";
    assert line[2] == ' ' && line[4] == word[0];
  }
}
