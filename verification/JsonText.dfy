/** The text `json.dumps(value, sort_keys=True)` produces, a reader of JSON, and that the reader undoes the printer. */
module JsonText {
  import opened Options

  /** A JSON value. `Obj` lists its fields in the order in which they are printed (sorted by key);
      `Num` carries the numeral as it is printed. */
  datatype Value =
    | Null
    | Bool(b: bool)
    | Num(numeral: string)
    | Str(text: string)
    | Arr(items: seq<Value>)
    | Obj(fields: seq<Field>)

  datatype Field = Field(key: string, value: Value)

  predicate IsNumeralChar(c: char) {
    '0' <= c <= '9' || c in "+-.eE"
  }

  predicate IsNumeral(n: string) {
    && n != ""
    && (n[0] == '-' || '0' <= n[0] <= '9')
    && forall i :: 0 <= i < |n| ==> IsNumeralChar(n[i])
  }

  /** Every number inside the value is printed as a numeral. */
  predicate WellFormed(v: Value) {
    match v
    case Num(n) => IsNumeral(n)
    case Arr(items) => forall i :: 0 <= i < |items| ==> WellFormed(items[i])
    case Obj(fields) => forall i :: 0 <= i < |fields| ==> WellFormed(fields[i].value)
    case _ => true
  }

  type Json = v: Value | WellFormed(v) witness Null

  // ---------- printing ----------

  function HexDigit(d: nat): char
    requires d < 16
  {
    "0123456789abcdef"[d]
  }

  function Hex4(n: nat): string
    requires n < 0x10000
  {
    var q1, q2, q3 := n / 16, n / 256, n / 4096;
    [HexDigit(q3), HexDigit(q2 % 16), HexDigit(q1 % 16), HexDigit(n % 16)]
  }

  /** How one character is written inside a JSON string when only ASCII may be printed. */
  function Escape(c: char): string {
    if c == '\"' then "\\\""
    else if c == '\\' then "\\\\"
    else if c == '\n' then "\\n"
    else if c == '\r' then "\\r"
    else if c == '\t' then "\\t"
    else if c == '\U{0008}' then "\\b"
    else if c == '\U{000C}' then "\\f"
    else if ' ' <= c <= '~' then [c]
    else if c as int < 0x10000 then "\\u" + Hex4(c as int)
    else SurrogatePair(c as int - 0x10000)
  }

  function SurrogatePair(m: nat): string
    requires m < 0x100000
  {
    "\\u" + Hex4(0xD800 + m / 0x400) + "\\u" + Hex4(0xDC00 + m % 0x400)
  }

  function EscapeAll(s: string): string {
    if s == "" then "" else Escape(s[0]) + EscapeAll(s[1..])
  }

  function Quote(s: string): string {
    "\"" + (EscapeAll(s) + "\"")
  }

  function Dumps(v: Value): string
    decreases v
  {
    match v
    case Null => "null"
    case Bool(b) => if b then "true" else "false"
    case Num(n) => n
    case Str(s) => Quote(s)
    case Arr(items) =>
      if items == [] then "[]" else "[" + (Dumps(items[0]) + ItemsTail(items[1..]))
    case Obj(fields) =>
      if fields == [] then "{}"
      else "{" + (Quote(fields[0].key) + (": " + (Dumps(fields[0].value) + FieldsTail(fields[1..]))))
  }

  function ItemsTail(items: seq<Value>): string
    decreases items
  {
    if items == [] then "]" else ", " + (Dumps(items[0]) + ItemsTail(items[1..]))
  }

  function FieldsTail(fields: seq<Field>): string
    decreases fields
  {
    if fields == [] then "}"
    else ", " + (Quote(fields[0].key) + (": " + (Dumps(fields[0].value) + FieldsTail(fields[1..]))))
  }

  // ---------- reading ----------

  // Every audit hash is taken over such a text, so whatever is proved about hashes rests on this reader: the text is JSON
  // for the value, and equal texts mean equal values, so that a clash of hashes has to be a clash of SHA-256.

  /** What a part of a text was read as, and the rest of the text. */
  datatype Parsed<T> = Parsed(value: T, rest: string)

  function HexValue(c: char): Option<nat> {
    if '0' <= c <= '9' then Some((c - '0') as nat)
    else if 'a' <= c <= 'f' then Some(10 + (c - 'a') as nat)
    else if 'A' <= c <= 'F' then Some(10 + (c - 'A') as nat)
    else None
  }

  function ReadHex4(t: string): (r: Option<nat>)
    ensures r.Some? ==> r.value < 0x10000 && |t| >= 4
  {
    if |t| < 4 then None
    else if HexValue(t[0]).None? || HexValue(t[1]).None? || HexValue(t[2]).None? || HexValue(t[3]).None? then None
    else Some(4096 * HexValue(t[0]).value + 256 * HexValue(t[1]).value + 16 * HexValue(t[2]).value + HexValue(t[3]).value)
  }

  /** The character behind a backslash that stands for one, as RFC 8259 lists them in section 7. */
  function Unescaped(c: char): Option<char> {
    match c
    case '\"' => Some('\"')
    case '\\' => Some('\\')
    case '/' => Some('/')
    case 'b' => Some('\U{0008}')
    case 'f' => Some('\U{000C}')
    case 'n' => Some('\n')
    case 'r' => Some('\r')
    case 't' => Some('\t')
    case _ => None
  }

  /** A code unit behind `\u`, or two of them that form a surrogate pair. */
  function ReadUnits(t: string): (r: Option<Parsed<char>>)
    ensures r.Some? ==> |r.value.rest| < |t|
  {
    var unit := ReadHex4(t);
    if unit.None? then None
    else if unit.value < 0xD800 || 0xE000 <= unit.value then Some(Parsed(unit.value as char, t[4..]))
    else if unit.value < 0xDC00 && |t| >= 6 && t[4] == '\\' && t[5] == 'u' then
      var low := ReadHex4(t[6..]);
      if low.Some? && 0xDC00 <= low.value < 0xE000 then
        Some(Parsed((0x10000 + 0x400 * (unit.value - 0xD800) + (low.value - 0xDC00)) as char, t[10..]))
      else None
    else None
  }

  /** One character of a string literal. */
  function ReadChar(t: string): (r: Option<Parsed<char>>)
    ensures r.Some? ==> |r.value.rest| < |t|
  {
    if t == "" then None
    else if t[0] != '\\' then Some(Parsed(t[0], t[1..]))
    else if |t| == 1 then None
    else if t[1] == 'u' then ReadUnits(t[2..])
    else
      match Unescaped(t[1])
      case None => None
      case Some(c) => Some(Parsed(c, t[2..]))
  }

  /** A string literal behind its opening quote. */
  function ReadChars(t: string): (r: Option<Parsed<string>>)
    ensures r.Some? ==> |r.value.rest| < |t|
    decreases |t|
  {
    if t != "" && t[0] == '\"' then Some(Parsed("", t[1..]))
    else
      match ReadChar(t)
      case None => None
      case Some(first) =>
        match ReadChars(first.rest)
        case None => None
        case Some(more) => Some(Parsed([first.value] + more.value, more.rest))
  }

  function SkipSpaces(t: string): (r: string)
    ensures |r| <= |t|
  {
    if t != "" && t[0] == ' ' then SkipSpaces(t[1..]) else t
  }

  function NumeralSpan(t: string): (k: nat)
    ensures k <= |t|
  {
    if t == "" || !IsNumeralChar(t[0]) then 0 else 1 + NumeralSpan(t[1..])
  }

  function ReadNumeral(t: string): (r: Option<Parsed<Value>>)
    ensures r.Some? ==> |r.value.rest| < |t|
  {
    var k := NumeralSpan(t);
    if IsNumeral(t[..k]) then Some(Parsed(Num(t[..k]), t[k..])) else None
  }

  /** A JSON value at the start of the text. */
  function ReadValue(t: string): (r: Option<Parsed<Value>>)
    ensures r.Some? ==> |r.value.rest| < |t|
    decreases |t|, 2
  {
    if t == "" then None
    else
      match t[0]
      case 'n' => if "null" <= t then Some(Parsed(Null, t[4..])) else None
      case 't' => if "true" <= t then Some(Parsed(Bool(true), t[4..])) else None
      case 'f' => if "false" <= t then Some(Parsed(Bool(false), t[5..])) else None
      case '\"' =>
        (match ReadChars(t[1..])
         case None => None
         case Some(s) => Some(Parsed(Str(s.value), s.rest)))
      case '[' =>
        if |t| > 1 && t[1] == ']' then Some(Parsed(Arr([]), t[2..]))
        else
          (match ReadItems(t[1..])
           case None => None
           case Some(items) => Some(Parsed(Arr(items.value), items.rest)))
      case '{' =>
        if |t| > 1 && t[1] == '}' then Some(Parsed(Obj([]), t[2..]))
        else
          (match ReadFields(t[1..])
           case None => None
           case Some(fields) => Some(Parsed(Obj(fields.value), fields.rest)))
      case _ => ReadNumeral(t)
  }

  /** Values parted by commas, up to the closing bracket. */
  function ReadItems(t: string): (r: Option<Parsed<seq<Value>>>)
    ensures r.Some? ==> |r.value.rest| < |t|
    decreases |t|, 3
  {
    match ReadValue(t)
    case None => None
    case Some(first) =>
      if first.rest == "" then None
      else if first.rest[0] == ']' then Some(Parsed([first.value], first.rest[1..]))
      else if first.rest[0] == ',' then
        match ReadItems(SkipSpaces(first.rest[1..]))
        case None => None
        case Some(more) => Some(Parsed([first.value] + more.value, more.rest))
      else None
  }

  /** A key, a colon and a value. */
  function ReadField(t: string): (r: Option<Parsed<Field>>)
    ensures r.Some? ==> |r.value.rest| < |t|
    decreases |t|, 3
  {
    if t == "" || t[0] != '\"' then None
    else
      match ReadChars(t[1..])
      case None => None
      case Some(key) =>
        if key.rest == "" || key.rest[0] != ':' then None
        else
          match ReadValue(SkipSpaces(key.rest[1..]))
          case None => None
          case Some(v) => Some(Parsed(Field(key.value, v.value), v.rest))
  }

  /** Fields parted by commas, up to the closing brace. */
  function ReadFields(t: string): (r: Option<Parsed<seq<Field>>>)
    ensures r.Some? ==> |r.value.rest| < |t|
    decreases |t|, 4
  {
    match ReadField(t)
    case None => None
    case Some(first) =>
      if first.rest == "" then None
      else if first.rest[0] == '}' then Some(Parsed([first.value], first.rest[1..]))
      else if first.rest[0] == ',' then
        match ReadFields(SkipSpaces(first.rest[1..]))
        case None => None
        case Some(more) => Some(Parsed([first.value] + more.value, more.rest))
      else None
  }

  // ---------- characters read back ----------

  lemma ReadHexDigit(d: nat)
    requires d < 16
    ensures HexValue(HexDigit(d)) == Some(d)
  {
  }

  lemma HexDigitsRead(n: nat, r: string)
    requires n < 0x10000
    ensures ReadHex4(Hex4(n) + r) == Some(n)
  {
    var q1, q2, q3 := n / 16, n / 256, n / 4096;
    ReadHexDigit(q3);
    ReadHexDigit(q2 % 16);
    ReadHexDigit(q1 % 16);
    ReadHexDigit(n % 16);
    var t := Hex4(n) + r;
    assert t[0] == Hex4(n)[0] && t[1] == Hex4(n)[1] && t[2] == Hex4(n)[2] && t[3] == Hex4(n)[3];
    assert q2 == q1 / 16 && q3 == q2 / 16;
  }

  lemma UnitRead(n: nat, r: string)
    requires n < 0xD800 || 0xE000 <= n < 0x10000
    ensures ReadUnits(Hex4(n) + r) == Some(Parsed(n as char, r))
  {
    hide Hex4, ReadHex4;
    HexDigitsRead(n, r);
    HexLength(n);
    assert (Hex4(n) + r)[4..] == r;
  }

  lemma HexLength(n: nat)
    requires n < 0x10000
    ensures |Hex4(n)| == 4
  {
  }

  lemma PairRead(m: nat, r: string)
    requires m < 0x100000
    ensures ReadUnits(Hex4(0xD800 + m / 0x400) + ("\\u" + (Hex4(0xDC00 + m % 0x400) + r))) == Some(Parsed((0x10000 + m) as char, r))
  {
    hide Hex4, ReadHex4;
    var high, low := 0xD800 + m / 0x400, 0xDC00 + m % 0x400;
    var after := "\\u" + (Hex4(low) + r);
    HexDigitsRead(high, after);
    HexDigitsRead(low, r);
    HexLength(high);
    HexLength(low);
    var t := Hex4(high) + after;
    assert t[4] == after[0] && t[5] == after[1];
    assert t[6..] == Hex4(low) + r;
    assert t[10..] == r;
  }

  lemma Associate(a: string, b: string, c: string)
    ensures (a + b) + c == a + (b + c)
  {
  }

  predicate IsShort(c: char) {
    c == '\"' || c == '\\' || c == '\n' || c == '\r' || c == '\t' || c == '\U{0008}' || c == '\U{000C}'
  }

  lemma ShortRead(c: char, r: string)
    requires IsShort(c)
    ensures |Escape(c)| == 2 && Escape(c)[0] == '\\' && Escape(c)[1] != 'u' && Unescaped(Escape(c)[1]) == Some(c)
    ensures ReadChar(Escape(c) + r) == Some(Parsed(c, r))
  {
    var t := Escape(c) + r;
    assert t[0] == Escape(c)[0] && t[1] == Escape(c)[1] && t[2..] == r;
  }

  lemma UnitEscapeRead(c: char, r: string)
    requires !IsShort(c) && !(' ' <= c <= '~') && c as int < 0x10000
    ensures ReadChar(Escape(c) + r) == Some(Parsed(c, r))
  {
    hide Hex4, ReadUnits;
    var t := Escape(c) + r;
    assert Escape(c) == "\\u" + Hex4(c as int);
    Associate("\\u", Hex4(c as int), r);
    assert t[0] == '\\' && t[1] == 'u' && t[2..] == Hex4(c as int) + r;
    UnitRead(c as int, r);
  }

  lemma PairText(high: string, low: string, r: string)
    ensures ("\\u" + high + "\\u" + low) + r == "\\u" + (high + ("\\u" + (low + r)))
  {
  }

  lemma UnitsAhead(t: string)
    ensures ReadChar("\\u" + t) == ReadUnits(t)
  {
    assert ("\\u" + t)[2..] == t;
  }

  lemma PairEscapeRead(c: char, r: string)
    requires c as int >= 0x10000
    ensures ReadChar(Escape(c) + r) == Some(Parsed(c, r))
  {
    hide Hex4, ReadUnits, ReadChar;
    var m := c as int - 0x10000;
    var high, low := Hex4(0xD800 + m / 0x400), Hex4(0xDC00 + m % 0x400);
    assert Escape(c) == "\\u" + high + "\\u" + low;
    PairText(high, low, r);
    UnitsAhead(high + ("\\u" + (low + r)));
    PairRead(m, r);
  }

  /** One printed character is read back, whatever follows; and none starts with a quote. */
  lemma EscapeRead(c: char, r: string)
    ensures ReadChar(Escape(c) + r) == Some(Parsed(c, r))
    ensures (Escape(c) + r) != "" && (Escape(c) + r)[0] != '\"'
  {
    if IsShort(c) {
      ShortRead(c, r);
    } else if ' ' <= c <= '~' {
      assert (Escape(c) + r)[1..] == r;
    } else if c as int < 0x10000 {
      UnitEscapeRead(c, r);
    } else {
      PairEscapeRead(c, r);
    }
  }

  lemma {:induction false} CharsRead(a: string, r: string)
    ensures ReadChars(EscapeAll(a) + ("\"" + r)) == Some(Parsed(a, r))
    decreases |a|
  {
    hide Escape, ReadChar;
    if a == "" {
      assert EscapeAll(a) + ("\"" + r) == "\"" + r;
    } else {
      var rest := EscapeAll(a[1..]) + ("\"" + r);
      Associate(Escape(a[0]), EscapeAll(a[1..]), "\"" + r);
      EscapeRead(a[0], rest);
      CharsRead(a[1..], r);
      assert [a[0]] + a[1..] == a;
    }
  }

  lemma QuoteThen(a: string, r: string)
    ensures Quote(a) + r == "\"" + (EscapeAll(a) + ("\"" + r))
    ensures (Quote(a) + r)[0] == '\"' && (Quote(a) + r)[1..] == EscapeAll(a) + ("\"" + r)
  {
    Associate("\"", EscapeAll(a) + "\"", r);
    Associate(EscapeAll(a), "\"", r);
  }

  // ---------- values read back ----------

  /** What may follow a value inside a larger text: nothing, a comma, or a closing bracket. */
  predicate Delimited(r: string) {
    r == "" || r[0] == ',' || r[0] == ']' || r[0] == '}'
  }

  lemma {:induction false} NumeralSpanIs(m: string, r: string)
    requires forall i :: 0 <= i < |m| ==> IsNumeralChar(m[i])
    requires Delimited(r)
    ensures NumeralSpan(m + r) == |m|
  {
    if m == "" {
      assert m + r == r;
    } else {
      assert (m + r)[1..] == m[1..] + r;
      NumeralSpanIs(m[1..], r);
    }
  }

  lemma NumeralRead(n: string, r: string)
    requires IsNumeral(n) && Delimited(r)
    ensures ReadValue(n + r) == Some(Parsed(Num(n), r))
  {
    NumeralSpanIs(n, r);
    assert (n + r)[0] == n[0];
    assert (n + r)[..|n|] == n && (n + r)[|n|..] == r;
  }

  lemma LiteralRead(v: Value, r: string)
    requires v.Null? || v.Bool?
    ensures ReadValue(Dumps(v) + r) == Some(Parsed(v, r))
  {
    var text := Dumps(v);
    assert (text + r)[0] == text[0] && (text + r)[|text|..] == r;
    assert text <= text + r;
  }

  lemma StringRead(s: string, r: string)
    ensures ReadValue(Dumps(Str(s)) + r) == Some(Parsed(Str(s), r))
  {
    hide ReadChars, EscapeAll;
    QuoteThen(s, r);
    CharsRead(s, r);
  }

  /** A value starts with no blank and no closing bracket. */
  lemma DumpsHead(v: Value, r: string)
    requires WellFormed(v)
    ensures Dumps(v) + r != "" && (Dumps(v) + r)[0] != ' ' && (Dumps(v) + r)[0] != ']'
  {
    assert Dumps(v) != "" && (Dumps(v) + r)[0] == Dumps(v)[0];
  }

  lemma OneSpace(t: string)
    requires t != "" && t[0] != ' '
    ensures SkipSpaces(" " + t) == t
  {
    assert (" " + t)[1..] == t;
  }

  /** The reader undoes the printer, whatever follows the value. */
  lemma {:induction false} ValueRead(v: Value, r: string)
    requires WellFormed(v) && Delimited(r)
    ensures ReadValue(Dumps(v) + r) == Some(Parsed(v, r))
    decreases v, 2
  {
    match v
    case Null => LiteralRead(v, r);
    case Bool(_) => LiteralRead(v, r);
    case Num(n) => NumeralRead(n, r);
    case Str(s) => StringRead(s, r);
    case Arr(items) =>
      if items == [] {
        assert ("[]" + r)[2..] == r;
      } else {
        ItemsRead(items, r);
        ArrText(items, r);
      }
    case Obj(fields) =>
      if fields == [] {
        assert ("{}" + r)[2..] == r;
      } else {
        FieldsRead(fields, r);
        ObjText(fields, r);
      }
  }

  function ItemsText(items: seq<Value>, r: string): string
    requires items != []
  {
    Dumps(items[0]) + (ItemsTail(items[1..]) + r)
  }

  lemma ArrText(items: seq<Value>, r: string)
    requires items != [] && WellFormed(Arr(items))
    ensures
      var t := Dumps(Arr(items)) + r;
      t[0] == '[' && t[1..] == ItemsText(items, r) && |t| > 1 && t[1] != ']'
  {
    var head, tail := Dumps(items[0]), ItemsTail(items[1..]);
    assert Dumps(Arr(items)) == "[" + (head + tail);
    Associate("[", head + tail, r);
    Associate(head, tail, r);
    DumpsHead(items[0], tail + r);
  }

  lemma TailStart(items: seq<Value>, r: string)
    ensures ItemsTail(items) + r != "" && Delimited(ItemsTail(items) + r)
    ensures items == [] ==> (ItemsTail(items) + r)[0] == ']' && (ItemsTail(items) + r)[1..] == r
    ensures items != [] ==> (ItemsTail(items) + r)[0] == ',' && (ItemsTail(items) + r)[1..] == " " + ItemsText(items, r)
  {
    if items == [] {
      assert ("]" + r)[1..] == r;
    } else {
      var head, tail := Dumps(items[0]), ItemsTail(items[1..]);
      assert ItemsTail(items) == ", " + (head + tail);
      assert ItemsTail(items) + r == ", " + (head + (tail + r));
    }
  }

  lemma {:induction false} ItemsRead(items: seq<Value>, r: string)
    requires items != [] && WellFormed(Arr(items))
    ensures ReadItems(ItemsText(items, r)) == Some(Parsed(items, r))
    decreases items, 1
  {
    hide Dumps, ItemsTail, ReadValue;
    var tail := ItemsTail(items[1..]) + r;
    TailStart(items[1..], r);
    ValueRead(items[0], tail);
    assert [items[0]] + items[1..] == items;
    if items[1..] != [] {
      assert WellFormed(Arr(items[1..]));
      DumpsHead(items[1], ItemsTail(items[1..][1..]) + r);
      OneSpace(ItemsText(items[1..], r));
      ItemsRead(items[1..], r);
    } else {
      assert items == [items[0]];
    }
  }

  function FieldText(f: Field, r: string): string {
    Quote(f.key) + (": " + (Dumps(f.value) + r))
  }

  function FieldsText(fields: seq<Field>, r: string): string
    requires fields != []
  {
    FieldText(fields[0], FieldsTail(fields[1..]) + r)
  }

  lemma FieldTextStart(f: Field, r: string)
    ensures FieldText(f, r) != "" && FieldText(f, r)[0] == '\"'
  {
    QuoteThen(f.key, ": " + (Dumps(f.value) + r));
  }

  lemma ObjText(fields: seq<Field>, r: string)
    requires fields != []
    ensures
      var t := Dumps(Obj(fields)) + r;
      t[0] == '{' && t[1..] == FieldsText(fields, r) && |t| > 1 && t[1] != '}'
  {
    hide Quote;
    var key, value, tail := Quote(fields[0].key), Dumps(fields[0].value), FieldsTail(fields[1..]);
    assert Dumps(Obj(fields)) == "{" + (key + (": " + (value + tail)));
    assert Dumps(Obj(fields)) + r == "{" + (key + (": " + (value + (tail + r))));
    FieldTextStart(fields[0], tail + r);
  }

  lemma FieldsTailStart(fields: seq<Field>, r: string)
    ensures FieldsTail(fields) + r != "" && Delimited(FieldsTail(fields) + r)
    ensures fields == [] ==> (FieldsTail(fields) + r)[0] == '}' && (FieldsTail(fields) + r)[1..] == r
    ensures fields != [] ==> (FieldsTail(fields) + r)[0] == ',' && (FieldsTail(fields) + r)[1..] == " " + FieldsText(fields, r)
  {
    hide Quote;
    if fields == [] {
      assert ("}" + r)[1..] == r;
    } else {
      var key, value, tail := Quote(fields[0].key), Dumps(fields[0].value), FieldsTail(fields[1..]);
      assert FieldsTail(fields) == ", " + (key + (": " + (value + tail)));
      assert FieldsTail(fields) + r == ", " + (key + (": " + (value + (tail + r))));
    }
  }

  lemma {:induction false} FieldRead(f: Field, r: string)
    requires WellFormed(f.value) && Delimited(r)
    ensures ReadField(FieldText(f, r)) == Some(Parsed(f, r))
    decreases f, 0
  {
    hide Dumps, ReadValue, ReadChars, EscapeAll;
    var after := ": " + (Dumps(f.value) + r);
    QuoteThen(f.key, after);
    CharsRead(f.key, after);
    assert after[0] == ':' && after[1..] == " " + (Dumps(f.value) + r);
    DumpsHead(f.value, r);
    OneSpace(Dumps(f.value) + r);
    ValueRead(f.value, r);
  }

  lemma {:induction false} FieldsRead(fields: seq<Field>, r: string)
    requires fields != [] && WellFormed(Obj(fields))
    ensures ReadFields(FieldsText(fields, r)) == Some(Parsed(fields, r))
    decreases fields, 1
  {
    hide FieldText, FieldsTail, ReadField;
    FieldsTailStart(fields[1..], r);
    FieldRead(fields[0], FieldsTail(fields[1..]) + r);
    assert [fields[0]] + fields[1..] == fields;
    if fields[1..] != [] {
      assert WellFormed(Obj(fields[1..]));
      FieldTextStart(fields[1], FieldsTail(fields[1..][1..]) + r);
      OneSpace(FieldsText(fields[1..], r));
      FieldsRead(fields[1..], r);
    } else {
      assert fields == [fields[0]];
    }
  }

  /** Reading the text of a value gives the value and leaves nothing over. */
  lemma {:induction false} DumpsReadBack(v: Value)
    requires WellFormed(v)
    ensures ReadValue(Dumps(v)) == Some(Parsed(v, ""))
  {
    assert Dumps(v) + "" == Dumps(v);
    ValueRead(v, "");
  }

  /** Two values with the same text are the same value. */
  lemma DumpsInjective(v: Json, w: Json)
    requires Dumps(v) == Dumps(w)
    ensures v == w
  {
    DumpsReadBack(v);
    DumpsReadBack(w);
  }

  // ---------- the spelling ----------

  predicate Printable(s: string) {
    forall i :: 0 <= i < |s| ==> ' ' <= s[i] <= '~'
  }

  lemma Hex4Lower(n: nat)
    requires n < 0x10000
    ensures |Hex4(n)| == 4 && forall i :: 0 <= i < 4 ==> '0' <= Hex4(n)[i] <= '9' || 'a' <= Hex4(n)[i] <= 'f'
  {
    HexDigitLower(n / 4096);
    HexDigitLower(n / 256 % 16);
    HexDigitLower(n / 16 % 16);
    HexDigitLower(n % 16);
  }

  lemma HexDigitLower(d: nat)
    requires d < 16
    ensures '0' <= HexDigit(d) <= '9' || 'a' <= HexDigit(d) <= 'f'
  {
  }

  /** Printable ASCII other than the quote and the backslash stands for itself; the escapes of two characters are used
      where JSON has them, but for the slash; all else becomes one code unit or two, in lower-case digits. */
  lemma EscapeSpelling(c: char)
    ensures Printable(Escape(c))
    ensures ' ' <= c <= '~' && c != '\"' && c != '\\' ==> Escape(c) == [c]
    ensures IsShort(c) <==> |Escape(c)| == 2
    ensures !(' ' <= c <= '~') && !IsShort(c) ==> |Escape(c)| == if c as int < 0x10000 then 6 else 12
  {
    hide Hex4;
    if IsShort(c) {
      ShortSpelling(c);
    } else if ' ' <= c <= '~' {
    } else if c as int < 0x10000 {
      assert Escape(c) == "\\u" + Hex4(c as int);
      UnitSpelling(c as int);
    } else {
      var m := c as int - 0x10000;
      assert Escape(c) == ("\\u" + Hex4(0xD800 + m / 0x400)) + ("\\u" + Hex4(0xDC00 + m % 0x400));
      UnitSpelling(0xD800 + m / 0x400);
      UnitSpelling(0xDC00 + m % 0x400);
    }
  }

  lemma ShortSpelling(c: char)
    requires IsShort(c)
    ensures Printable(Escape(c)) && |Escape(c)| == 2
  {
  }

  lemma UnitSpelling(n: nat)
    requires n < 0x10000
    ensures Printable("\\u" + Hex4(n)) && |"\\u" + Hex4(n)| == 6
  {
    hide Hex4;
    Hex4Lower(n);
  }

  /** Parts with a separator between them. */
  function Joined(separator: string, parts: seq<string>): string {
    if parts == [] then ""
    else if |parts| == 1 then parts[0]
    else parts[0] + (separator + Joined(separator, parts[1..]))
  }

  function ItemTexts(items: seq<Value>): seq<string> {
    seq(|items|, i requires 0 <= i < |items| => Dumps(items[i]))
  }

  lemma {:induction false} ItemsTailJoined(items: seq<Value>)
    ensures ItemsTail(items) == if items == [] then "]" else ", " + (Joined(", ", ItemTexts(items)) + "]")
    decreases |items|
  {
    if items != [] {
      assert ItemTexts(items)[1..] == ItemTexts(items[1..]);
      ItemsTailJoined(items[1..]);
      if |items| > 1 {
        Associate(Dumps(items[0]), ", " + Joined(", ", ItemTexts(items[1..])), "]");
        Associate(", ", Joined(", ", ItemTexts(items[1..])), "]");
      }
    }
  }

  /** A list is its members' texts, parted by a comma and a blank, in brackets. */
  lemma {:induction false} ArrSpelling(items: seq<Value>)
    ensures Dumps(Arr(items)) == "[" + (Joined(", ", ItemTexts(items)) + "]")
  {
    if items == [] {
      assert "" + "]" == "]";
    } else {
      assert ItemTexts(items)[1..] == ItemTexts(items[1..]);
      ItemsTailJoined(items[1..]);
      if |items| > 1 {
        Associate(Dumps(items[0]), ", " + Joined(", ", ItemTexts(items[1..])), "]");
        Associate(", ", Joined(", ", ItemTexts(items[1..])), "]");
      }
    }
  }

  function FieldTexts(fields: seq<Field>): seq<string> {
    seq(|fields|, i requires 0 <= i < |fields| => Quote(fields[i].key) + (": " + Dumps(fields[i].value)))
  }

  lemma FieldGlue(key: string, value: string, tail: string)
    ensures key + (": " + (value + tail)) == (key + (": " + value)) + tail
  {
  }

  lemma {:induction false} FieldsTailJoined(fields: seq<Field>)
    ensures FieldsTail(fields) == if fields == [] then "}" else ", " + (Joined(", ", FieldTexts(fields)) + "}")
    decreases |fields|
  {
    hide Quote;
    if fields != [] {
      assert FieldTexts(fields)[1..] == FieldTexts(fields[1..]);
      FieldsTailJoined(fields[1..]);
      FieldGlue(Quote(fields[0].key), Dumps(fields[0].value), FieldsTail(fields[1..]));
      if |fields| > 1 {
        Associate(FieldTexts(fields)[0], ", " + Joined(", ", FieldTexts(fields[1..])), "}");
        Associate(", ", Joined(", ", FieldTexts(fields[1..])), "}");
      }
    }
  }

  /** An object is its fields' texts, key, colon, blank and value, parted by a comma and a blank, in braces. */
  lemma {:induction false} ObjSpelling(fields: seq<Field>)
    ensures Dumps(Obj(fields)) == "{" + (Joined(", ", FieldTexts(fields)) + "}")
  {
    hide Quote;
    if fields == [] {
      assert "" + "}" == "}";
    } else {
      assert FieldTexts(fields)[1..] == FieldTexts(fields[1..]);
      FieldsTailJoined(fields[1..]);
      FieldGlue(Quote(fields[0].key), Dumps(fields[0].value), FieldsTail(fields[1..]));
      if |fields| > 1 {
        Associate(FieldTexts(fields)[0], ", " + Joined(", ", FieldTexts(fields[1..])), "}");
        Associate(", ", Joined(", ", FieldTexts(fields[1..])), "}");
      }
    }
  }
}
