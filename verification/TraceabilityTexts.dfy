/** The texts of the operation inventory, and what they tell apart. */
module TraceabilityTexts {
  import Ascii
  import opened Options
  import opened Decimal
  import opened Lines
  import opened Traceability
  import Y = YamlOperations
  import R = YamlRoundTrip

  function Name(b: Block): string {
    match b
    case Consent => "consent"
    case Payments => "payments"
    case Scheduler => "scheduler"
    case FileManagement => "file-management"
  }

  /** `replace('-', '_')` */
  function Underscored(s: string): string {
    seq(|s|, i requires 0 <= i < |s| => if s[i] == '-' then '_' else s[i])
  }

  /** The block's name in row ids. */
  function Upper(b: Block): string {
    Underscored(Ascii.Upper(Name(b)))
  }

  function Folder(b: Block): string {
    "bb-" + (Name(b) + "/")
  }

  const MARK := "-OFFICIAL-"

  function OfficialId(b: Block, index: nat): string {
    Upper(b) + (MARK + Pad3(index))
  }

  function Cite(b: Block, artifact: string): string {
    Folder(b) + artifact
  }

  function LocalId(b: Block): string {
    match b
    case Consent => "CONSENT-LOCAL-SIGNATURE-UPDATE"
    case Payments => "PAYMENTS-LOCAL-REPLAY-EVIDENCE"
    case Scheduler => "SCHEDULER-SINGLE-GOVERNMENT-GUARD"
    case FileManagement => "FILE-MANAGEMENT-LOCAL-SECURITY-EVIDENCE"
  }

  /** What a block's local row is about, which no result depends on. */
  datatype Evidence = Evidence(artifacts: seq<string>, operation: string)

  function LocalRow(evidence: Block -> Evidence): Block -> Row {
    (b: Block) => Row(Required(), Some(LocalId(b)), evidence(b).artifacts, evidence(b).operation, None, None, ImplementedLocal)
  }

  const NO_OPERATION := Found(None, None, "No operation discoverable: pinned swagger artifact is empty", "api/swagger.yaml")

  function Only(artifact: string): string {
    "Artifact inventory only: " + artifact
  }

  function First(): string {
    MARK + "001"
  }

  /** `id.endswith("-OFFICIAL-001")` */
  predicate IsFirst(id: string) {
    |First()| <= |id| && id[|id| - |First()|..] == First()
  }

  function TextsWith(evidence: Block -> Evidence): Texts {
    Texts(OfficialId, Cite, LocalRow(evidence), NO_OPERATION, Only, IsFirst)
  }

  lemma UpperStarts(b: Block)
    ensures Upper(b)[0] == match b case Consent => 'C' case Payments => 'P' case Scheduler => 'S' case FileManagement => 'F'
    ensures LocalId(b)[0] == Upper(b)[0]
  {
  }

  lemma LocalEnds(b: Block)
    ensures LocalId(b) != "" && !IsDigit(LocalId(b)[|LocalId(b)| - 1])
  {
  }

  lemma OfficialEnds(b: Block, index: nat)
    ensures OfficialId(b, index) != "" && IsDigit(OfficialId(b, index)[|OfficialId(b, index)| - 1])
    ensures OfficialId(b, index)[0] == Upper(b)[0]
  {
    hide Pad3;
    UpperStarts(b);
    PadNotEmpty(index);
    ReadPad3(index);
    var pad := Pad3(index);
    assert OfficialId(b, index)[|OfficialId(b, index)| - 1] == pad[|pad| - 1];
  }

  lemma PadNotEmpty(n: nat)
    ensures Pad3(n) != ""
  {
    ReadShow(n);
  }

  lemma IdTail(b: Block, index: nat)
    ensures |OfficialId(b, index)| >= |Upper(b)| + |MARK|
    ensures OfficialId(b, index)[|Upper(b)| + |MARK|..] == Pad3(index)
  {
    hide Pad3, Upper;
    assert OfficialId(b, index) == (Upper(b) + MARK) + Pad3(index);
  }

  /** The id of an official row tells block and index, however many rows there are. */
  lemma OfficialIdTells(b: Block, i: nat, c: Block, j: nat)
    ensures OfficialId(b, i) == OfficialId(c, j) ==> b == c && i == j
  {
    hide Pad3, Upper, OfficialId;
    UpperStarts(b);
    UpperStarts(c);
    OfficialEnds(b, i);
    OfficialEnds(c, j);
    IdTail(b, i);
    IdTail(c, j);
    ReadPad3(i);
    ReadPad3(j);
  }

  lemma CiteTells(b: Block, x: string, y: string)
    ensures Cite(b, x) == Cite(b, y) ==> x == y
  {
    hide Folder;
    assert Cite(b, x)[|Folder(b)|..] == x && Cite(b, y)[|Folder(b)|..] == y;
  }

  lemma FirstIdOpens(b: Block)
    ensures IsFirst(OfficialId(b, 1))
  {
    hide Upper;
    assert Pad3(1) == "001" by {
      assert Show(1) == "1";
    }
    var id := OfficialId(b, 1);
    assert id[|Upper(b)|..] == First();
  }

  lemma DigitAhead(b: Block, index: nat)
    ensures
      var id := OfficialId(b, index);
      |Pad3(index)| > 3 ==> |id| >= 4 && IsDigit(id[|id| - 4])
  {
    hide Upper, OfficialId;
    IdTail(b, index);
    ReadPad3(index);
    var id, pad := OfficialId(b, index), Pad3(index);
    if |pad| > 3 {
      assert id[|Upper(b)| + |MARK|..][|pad| - 4] == pad[|pad| - 4];
    }
  }

  /** Only index 1 makes the id the validator looks for, also where the number has more than three digits. */
  lemma {:induction false} FirstIdIff(b: Block, index: nat)
    ensures IsFirst(OfficialId(b, index)) <==> index == 1
  {
    hide Upper;
    FirstIdOpens(b);
    if IsFirst(OfficialId(b, index)) {
      IdTail(b, index);
      ReadPad3(index);
      ReadPad3(1);
      var id, pad := OfficialId(b, index), Pad3(index);
      var end := First();
      assert end[9] == '-' && end[10..] == "001";
      assert id[|id| - 4] == id[|id| - |end|..][9] == '-';
      DigitAhead(b, index);
      assert pad == id[|id| - |end|..][10..] == "001";
    }
  }

  lemma LocalIdDoesNotOpen(b: Block)
    ensures !IsFirst(LocalId(b))
  {
    hide LocalId;
    LocalEnds(b);
    var end := First();
    assert end[|end| - 1] == '1';
  }

  /** The texts tell apart all that the inventory relies on. */
  lemma TextsTell(evidence: Block -> Evidence)
    ensures Telling(TextsWith(evidence))
  {
    hide OfficialId, LocalId, Cite, Required, Upper, IsFirst;
    forall b, i, c, j
      ensures OfficialId(b, i) == OfficialId(c, j) ==> b == c && i == j
    {
      OfficialIdTells(b, i, c, j);
    }
    forall b, i, c
      ensures LocalId(c) != OfficialId(b, i)
    {
      OfficialEnds(b, i);
      LocalEnds(c);
    }
    forall b, c
      ensures LocalId(b) == LocalId(c) ==> b == c
    {
      UpperStarts(b);
      UpperStarts(c);
    }
    forall b, x, y
      ensures Cite(b, x) == Cite(b, y) ==> x == y
    {
      CiteTells(b, x, y);
    }
    IdRequired();
    assert ImplementedLocal == STATUS_VOCABULARY[0];
    forall b
      ensures !IsFirst(LocalId(b)) && IsFirst(OfficialId(b, 1))
    {
      FirstIdOpens(b);
      LocalIdDoesNotOpen(b);
    }
  }

  lemma IdRequired()
    ensures Id in Required()
  {
  }

  // ---------- from the OpenAPI document to its rows ----------

  function FromYaml(rows: seq<Y.Row>): seq<Found> {
    seq(|rows|, i requires 0 <= i < |rows| => Found(Some(rows[i].path), Some(rows[i].method_), rows[i].operation, "api/consent-openapi.yaml"))
  }

  /** Where the Consent operations are parsed from a readable document, the inventory opens with exactly the
      document's operations, in their order and numbered from 1. */
  lemma {:induction false} ConsentOperationsInventoried(evidence: Block -> Evidence, src: Source, d: R.Document, k: nat)
    requires src.found(Consent) == FromYaml(Y.Operations(Y.Classify, SplitLines(Fed(R.Print(R.YAML, d)))))
    requires R.LaidOut(Y.Classify, d) && R.Readable(d.items)
    requires k < |R.Rows(d.items)|
    ensures k < |OfficialRows(TextsWith(evidence), src, Consent)|
    ensures var row, op := OfficialRows(TextsWith(evidence), src, Consent)[k], R.Rows(d.items)[k];
            && row.id == Some(OfficialId(Consent, k + 1)) && row.operation == op.operation
            && row.path == Some(op.path) && row.method_ == Some(op.method_)
  {
    hide OfficialId, Cite, SplitLines, Fed, Y.Classify, Y.Operations, R.Print, R.LaidOut, R.Readable, R.Rows, Unseen;
    R.YamlInvertsPrinterIff(d);
    assert Discovered(TextsWith(evidence), src, Consent) == FromYaml(R.Rows(d.items));
    assert Inventory(TextsWith(evidence), src, Consent)[k] == FromYaml(R.Rows(d.items))[k];
  }

  /** The results about the inventory hold of the texts it is written with. */
  lemma {:induction false} ShippedTextsAccepted(evidence: Block -> Evidence, src: Source)
    requires Lists(src.sorted)
    ensures FirstProblem(IsFirst, Build(TextsWith(evidence), src)) == None
       <==> forall b :: b == FileManagement || src.found(b) != [] || src.declared(b) != {}
  {
    TextsTell(evidence);
    GeneratedIsAcceptedIff(TextsWith(evidence), src);
  }
}
