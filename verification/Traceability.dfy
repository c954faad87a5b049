/** The operation inventory of the four building blocks: its generator, its validator, and why they agree. */
module Traceability {
  import opened Options
  import opened Counting

  // ---------- rows ----------

  datatype Block = Consent | Payments | Scheduler | FileManagement

  const BLOCKS := [Consent, Payments, Scheduler, FileManagement]

  datatype Field =
    | Id | BuildingBlock | OfficialArtifacts | OfficialOperation | Method | OfficialPath | RequestSchemaSource
    | ResponseSchemaSource | Identifiers | Authentication | Authorization | States | StatusesErrors | CivicosSurface
    | LocalTestEvidence | StatusField | Reason

  /** `REQUIRED_ROW_FIELDS` */
  function Required(): set<Field> {
    {Id, BuildingBlock, OfficialArtifacts, OfficialOperation, Method, OfficialPath, RequestSchemaSource,
     ResponseSchemaSource, Identifiers, Authentication, Authorization, States, StatusesErrors, CivicosSurface,
     LocalTestEvidence, StatusField, Reason}
  }

  datatype Status = ImplementedLocal | Unverified | Deferred | Unsupported | OtherStatus(text: string)

  const STATUS_VOCABULARY := [ImplementedLocal, Unverified, Deferred, Unsupported]

  /** A row as the validator may find it: which fields it has, and the ones somebody looks at. The value of a field
      that is not there means nothing. An id that is no text is `None`. */
  datatype Row = Row(fields: set<Field>, id: Option<string>, artifacts: seq<string>, operation: string,
                     method_: Option<string>, path: Option<string>, status: Status)

  datatype Data = Data(schemaVersion: Option<int>, vocabulary: Option<seq<Status>>, maps: map<Block, seq<Row>>)

  // ---------- the generator ----------

  /** An operation or an artifact found in the pinned sources. */
  datatype Found = Found(path: Option<string>, method_: Option<string>, operation: string, artifact: string)

  /** The checkout: what each block's documents yield, what the authority manifest declares, and `sorted`. */
  datatype Source = Source(found: Block -> seq<Found>, declared: Block -> set<string>, sorted: set<string> -> seq<string>)

  /** All that matters of `sorted` is that it lists every member once. */
  ghost predicate Lists(sorted: set<string> -> seq<string>) {
    forall s :: Distinct(sorted(s)) && SetOf(sorted(s)) == s
  }

  /** The fixed texts of the generator: ids of official rows, citations, the local rows, the two operations it makes
      up, and the ending the validator looks for. */
  datatype Texts = Texts(id: (Block, nat) -> string, cite: (Block, string) -> string, local: Block -> Row,
                         nothing: Found, only: string -> string, first: string -> bool)

  function Discovered(t: Texts, src: Source, b: Block): seq<Found> {
    if b == FileManagement then [t.nothing] else src.found(b)
  }

  function Artifacts(found: seq<Found>): set<string> {
    set f | f in found :: f.artifact
  }

  function InventoryOnly(t: Texts, artifact: string): Found {
    Found(None, None, t.only(artifact), artifact)
  }

  function Unseen(t: Texts, src: Source, b: Block): seq<string> {
    src.sorted(src.declared(b) - Artifacts(Discovered(t, src, b)))
  }

  function InventoryOf(t: Texts, discovered: seq<Found>, names: seq<string>): seq<Found> {
    discovered + seq(|names|, i requires 0 <= i < |names| => InventoryOnly(t, names[i]))
  }

  function Inventory(t: Texts, src: Source, b: Block): seq<Found> {
    InventoryOf(t, Discovered(t, src, b), Unseen(t, src, b))
  }

  function OfficialRow(t: Texts, b: Block, index: nat, f: Found): Row {
    Row(Required(), Some(t.id(b, index)), [t.cite(b, f.artifact)], f.operation, f.method_, f.path, Unverified)
  }

  function Numbered(t: Texts, b: Block, found: seq<Found>): seq<Row> {
    seq(|found|, i requires 0 <= i < |found| => OfficialRow(t, b, i + 1, found[i]))
  }

  function OfficialRows(t: Texts, src: Source, b: Block): seq<Row> {
    Numbered(t, b, Inventory(t, src, b))
  }

  function BlockRows(t: Texts, src: Source, b: Block): seq<Row> {
    OfficialRows(t, src, b) + [t.local(b)]
  }

  function Maps(t: Texts, src: Source, blocks: seq<Block>): map<Block, seq<Row>> {
    map b | b in blocks :: BlockRows(t, src, b)
  }

  function Build(t: Texts, src: Source): Data {
    Data(Some(2), Some(STATUS_VOCABULARY), Maps(t, src, BLOCKS))
  }

  /** The loops of `official_rows`. */
  method WriteOfficialRows(t: Texts, src: Source, b: Block) returns (rows: seq<Row>)
    ensures rows == OfficialRows(t, src, b)
  {
    hide OfficialRow, InventoryOnly;
    var start := Discovered(t, src, b);
    var missing := src.sorted(src.declared(b) - Artifacts(start));
    var discovered := start;
    for i := 0 to |missing|
      invariant discovered == InventoryOf(t, start, missing[..i])
    {
      discovered := discovered + [InventoryOnly(t, missing[i])];
    }
    assert missing[..|missing|] == missing;
    rows := Number(t, b, discovered);
  }

  /** The numbering loop of `official_rows`. */
  method Number(t: Texts, b: Block, discovered: seq<Found>) returns (rows: seq<Row>)
    ensures rows == Numbered(t, b, discovered)
  {
    hide OfficialRow;
    rows := [];
    var index := 1;
    for i := 0 to |discovered|
      invariant index == i + 1
      invariant rows == Numbered(t, b, discovered[..i])
    {
      rows := rows + [OfficialRow(t, b, index, discovered[i])];
      index := index + 1;
    }
    assert discovered[..|discovered|] == discovered;
  }

  /** The loop of `build_traceability`. */
  method BuildTraceability(t: Texts, src: Source) returns (data: Data)
    ensures data == Build(t, src)
  {
    hide BlockRows;
    var maps: map<Block, seq<Row>> := map[];
    for i := 0 to |BLOCKS|
      invariant maps == Maps(t, src, BLOCKS[..i])
    {
      var official := WriteOfficialRows(t, src, BLOCKS[i]);
      EachBlock(t, src, BLOCKS[i]);
      maps := maps[BLOCKS[i] := official + [t.local(BLOCKS[i])]];
    }
    assert BLOCKS[..|BLOCKS|] == BLOCKS;
    data := Data(Some(2), Some(STATUS_VOCABULARY), maps);
  }

  lemma EachBlock(t: Texts, src: Source, b: Block)
    ensures BlockRows(t, src, b) == OfficialRows(t, src, b) + [t.local(b)]
  {
  }

  // ---------- the validator ----------

  datatype Problem =
    | BadSchema | BadVocabulary | MissingOfficial(block: Block) | Incomplete(id: Option<string>)
    | BadStatus(id: Option<string>)
    | Crash  // a row without a usable id, met while looking for the first official row

  predicate HasId(r: Row) {
    Id in r.fields && r.id.Some?
  }

  /** `any(row["id"].endswith("-OFFICIAL-001") for row in rows)`; nothing when a row has no id to ask. */
  function AnyFirst(first: string -> bool, rows: seq<Row>): Option<bool> {
    if rows == [] then Some(false)
    else if !HasId(rows[0]) then None
    else if first(rows[0].id.value) then Some(true)
    else AnyFirst(first, rows[1..])
  }

  predicate Complete(r: Row) {
    Required() <= r.fields
  }

  function NameOf(r: Row): Option<string> {
    if Id in r.fields then r.id else None
  }

  function RowsProblem(rows: seq<Row>): Option<Problem> {
    if rows == [] then None
    else if !Complete(rows[0]) then Some(Incomplete(NameOf(rows[0])))
    else if rows[0].status !in STATUS_VOCABULARY then Some(BadStatus(NameOf(rows[0])))
    else RowsProblem(rows[1..])
  }

  function RowsFor(data: Data, b: Block): seq<Row> {
    if b in data.maps then data.maps[b] else []
  }

  function BlockProblem(first: string -> bool, data: Data, b: Block): Option<Problem> {
    var rows := RowsFor(data, b);
    match AnyFirst(first, rows)
    case None => Some(Crash)
    case Some(found) => if found then RowsProblem(rows) else Some(MissingOfficial(b))
  }

  function BlocksProblem(first: string -> bool, data: Data, blocks: seq<Block>): Option<Problem> {
    if blocks == [] then None
    else if BlockProblem(first, data, blocks[0]).Some? then BlockProblem(first, data, blocks[0])
    else BlocksProblem(first, data, blocks[1..])
  }

  /** What `validate` raises, if anything. */
  function FirstProblem(first: string -> bool, data: Data): Option<Problem> {
    if data.schemaVersion != Some(2) then Some(BadSchema)
    else if data.vocabulary != Some(STATUS_VOCABULARY) then Some(BadVocabulary)
    else BlocksProblem(first, data, BLOCKS)
  }

  /** The loops of `validate`. */
  method Validate(first: string -> bool, data: Data) returns (problem: Option<Problem>)
    ensures problem == FirstProblem(first, data)
  {
    if data.schemaVersion != Some(2) {
      return Some(BadSchema);
    }
    if data.vocabulary != Some(STATUS_VOCABULARY) {
      return Some(BadVocabulary);
    }
    for k := 0 to |BLOCKS|
      invariant BlocksProblem(first, data, BLOCKS[k..]) == BlocksProblem(first, data, BLOCKS)
    {
      var b := BLOCKS[k];
      assert BLOCKS[k..][0] == b && BLOCKS[k..][1..] == BLOCKS[k + 1..];
      var rows := RowsFor(data, b);
      var opening := AnyFirst(first, rows);
      if opening.None? {
        return Some(Crash);
      }
      if !opening.value {
        return Some(MissingOfficial(b));
      }
      for i := 0 to |rows|
        invariant RowsProblem(rows[i..]) == RowsProblem(rows)
      {
        var row := rows[i];
        assert rows[i..][0] == row && rows[i..][1..] == rows[i + 1..];
        if !Complete(row) {
          return Some(Incomplete(NameOf(row)));
        }
        if row.status !in STATUS_VOCABULARY {
          return Some(BadStatus(NameOf(row)));
        }
      }
    }
    problem := None;
  }

  // ---------- what the validator accepts ----------

  ghost predicate Opened(first: string -> bool, rows: seq<Row>) {
    exists i :: 0 <= i < |rows| && HasId(rows[i]) && first(rows[i].id.value) && forall j :: 0 <= j < i ==> HasId(rows[j])
  }

  ghost predicate Sound(rows: seq<Row>) {
    forall i :: 0 <= i < |rows| ==> Complete(rows[i]) && rows[i].status in STATUS_VOCABULARY
  }

  lemma {:induction false} AnyFirstIff(first: string -> bool, rows: seq<Row>)
    ensures AnyFirst(first, rows) == Some(true) <==> Opened(first, rows)
  {
    if rows != [] && HasId(rows[0]) && !first(rows[0].id.value) {
      AnyFirstIff(first, rows[1..]);
      if Opened(first, rows[1..]) {
        var i: nat :| i < |rows[1..]| && HasId(rows[1..][i]) && first(rows[1..][i].id.value)
                   && forall j :: 0 <= j < i ==> HasId(rows[1..][j]);
        assert forall j :: 1 <= j < i + 1 ==> rows[j] == rows[1..][j - 1];
        assert HasId(rows[i + 1]) && first(rows[i + 1].id.value);
      }
      if Opened(first, rows) {
        var i: nat :| i < |rows| && HasId(rows[i]) && first(rows[i].id.value) && forall j :: 0 <= j < i ==> HasId(rows[j]);
        assert rows[1..][i - 1] == rows[i];
        assert forall j :: 0 <= j < i - 1 ==> rows[1..][j] == rows[j + 1];
      }
    }
  }

  lemma {:induction false} RowsProblemIff(rows: seq<Row>)
    ensures RowsProblem(rows) == None <==> Sound(rows)
  {
    if rows != [] {
      RowsProblemIff(rows[1..]);
      assert forall i :: 1 <= i < |rows| ==> rows[i] == rows[1..][i - 1];
    }
  }

  /** The validator is silent exactly on the documents of the right version and vocabulary whose every block opens
      with a first official row and has only complete rows with known states. */
  lemma AcceptedIff(first: string -> bool, data: Data)
    ensures FirstProblem(first, data) == None
       <==> && data.schemaVersion == Some(2) && data.vocabulary == Some(STATUS_VOCABULARY)
            && forall b :: Opened(first, RowsFor(data, b)) && Sound(RowsFor(data, b))
  {
    hide AnyFirst, RowsProblem, Opened, Sound, RowsFor;
    forall b
      ensures BlockProblem(first, data, b) == None <==> Opened(first, RowsFor(data, b)) && Sound(RowsFor(data, b))
    {
      AnyFirstIff(first, RowsFor(data, b));
      RowsProblemIff(RowsFor(data, b));
    }
    FourBlocks(first, data);
    if forall b :: BlockProblem(first, data, b) == None {
      assert BlocksProblem(first, data, BLOCKS) == None;
    } else {
      var b :| BlockProblem(first, data, b) != None;
      assert Opened(first, RowsFor(data, b)) && Sound(RowsFor(data, b)) ==> BlockProblem(first, data, b) == None;
    }
  }

  lemma FourBlocks(first: string -> bool, data: Data)
    ensures BlocksProblem(first, data, BLOCKS) == None <==> forall b :: BlockProblem(first, data, b) == None
  {
    hide BlockProblem;
    assert BLOCKS[1..] == [Payments, Scheduler, FileManagement];
    assert BLOCKS[1..][1..] == [Scheduler, FileManagement];
    assert BLOCKS[1..][1..][1..] == [FileManagement];
    assert BLOCKS[1..][1..][1..][1..] == [];
    assert BlocksProblem(first, data, BLOCKS) == None
      <==> BlockProblem(first, data, Consent) == None && BlocksProblem(first, data, BLOCKS[1..]) == None;
    assert BlocksProblem(first, data, BLOCKS[1..]) == None
      <==> BlockProblem(first, data, Payments) == None && BlocksProblem(first, data, BLOCKS[1..][1..]) == None;
    assert BlocksProblem(first, data, BLOCKS[1..][1..]) == None
      <==> BlockProblem(first, data, Scheduler) == None && BlocksProblem(first, data, BLOCKS[1..][1..][1..]) == None;
    assert BlocksProblem(first, data, BLOCKS[1..][1..][1..]) == None <==> BlockProblem(first, data, FileManagement) == None;
    if BlocksProblem(first, data, BLOCKS) == None {
      forall b
        ensures BlockProblem(first, data, b) == None
      {
        match b
        case Consent =>
        case Payments =>
        case Scheduler =>
        case FileManagement =>
      }
    }
  }

  // ---------- what the fixed texts must tell apart ----------

  ghost predicate Telling(t: Texts) {
    && (forall b, i, c, j :: t.id(b, i) == t.id(c, j) ==> b == c && i == j)
    && (forall b, i, c :: t.local(c).id != Some(t.id(b, i)))
    && (forall b, c :: t.local(b).id == t.local(c).id ==> b == c)
    && (forall b, x, y :: t.cite(b, x) == t.cite(b, y) ==> x == y)
    && (forall b :: HasId(t.local(b)) && !t.first(t.local(b).id.value))
    && (forall b :: Complete(t.local(b)) && t.local(b).status in STATUS_VOCABULARY)
    && (forall b :: t.first(t.id(b, 1)))
  }

  // ---------- ids ----------

  lemma RowIds(t: Texts, src: Source, b: Block, i: nat)
    requires i < |BlockRows(t, src, b)|
    ensures i <= |Inventory(t, src, b)|
    ensures BlockRows(t, src, b)[i].id
         == if i < |Inventory(t, src, b)| then Some(t.id(b, i + 1)) else t.local(b).id
  {
    hide Inventory;
  }

  /** No two rows of the whole inventory share an id. */
  lemma IdsAreUnique(t: Texts, src: Source, b: Block, i: nat, c: Block, j: nat)
    requires Telling(t)
    requires i < |BlockRows(t, src, b)| && j < |BlockRows(t, src, c)|
    ensures BlockRows(t, src, b)[i].id == BlockRows(t, src, c)[j].id <==> b == c && i == j
  {
    hide BlockRows, Inventory;
    RowIds(t, src, b, i);
    RowIds(t, src, c, j);
  }

  // ---------- artifacts ----------

  lemma InventoryArtifacts(t: Texts, src: Source, b: Block)
    ensures var found, names := Discovered(t, src, b), Unseen(t, src, b);
            && |Inventory(t, src, b)| == |found| + |names|
            && (forall i :: 0 <= i < |found| ==> Inventory(t, src, b)[i] == found[i])
            && forall i :: 0 <= i < |names| ==> Inventory(t, src, b)[|found| + i].artifact == names[i]
  {
  }

  /** Which artifacts an inventory covers. */
  lemma InventoryCovers(t: Texts, src: Source, b: Block, artifact: string)
    requires Lists(src.sorted)
    ensures artifact in src.declared(b) || artifact in Artifacts(Discovered(t, src, b))
       <==> exists i :: 0 <= i < |Inventory(t, src, b)| && Inventory(t, src, b)[i].artifact == artifact
  {
    hide Discovered, InventoryOf;
    InventoryArtifacts(t, src, b);
    var all, found, names := Inventory(t, src, b), Discovered(t, src, b), Unseen(t, src, b);
    assert SetOf(names) == src.declared(b) - Artifacts(found);
    if artifact in Artifacts(found) {
      var i :| 0 <= i < |found| && found[i].artifact == artifact;
      assert all[i].artifact == artifact;
    } else if artifact in src.declared(b) {
      assert artifact in SetOf(names);
      var i :| 0 <= i < |names| && names[i] == artifact;
      assert all[|found| + i].artifact == artifact;
    } else {
      forall i | 0 <= i < |all|
        ensures all[i].artifact != artifact
      {
        if i < |found| {
          assert found[i].artifact in Artifacts(found);
        } else {
          assert all[|found| + (i - |found|)].artifact == names[i - |found|];
          assert names[i - |found|] in SetOf(names);
        }
      }
    }
  }

  /** The official rows of a block cite exactly the artifacts declared for it or discovered in it. */
  lemma EveryArtifactInventoried(t: Texts, src: Source, b: Block, artifact: string)
    requires Telling(t) && Lists(src.sorted)
    ensures artifact in src.declared(b) || artifact in Artifacts(Discovered(t, src, b))
       <==> exists i :: 0 <= i < |OfficialRows(t, src, b)| && OfficialRows(t, src, b)[i].artifacts == [t.cite(b, artifact)]
  {
    hide Discovered, Inventory;
    InventoryCovers(t, src, b, artifact);
    assert |OfficialRows(t, src, b)| == |Inventory(t, src, b)|;
    forall i | 0 <= i < |OfficialRows(t, src, b)|
      ensures OfficialRows(t, src, b)[i].artifacts == [t.cite(b, artifact)] <==> Inventory(t, src, b)[i].artifact == artifact
    {
    }
  }

  /** Two rows that only inventory an artifact never cite the same one. */
  lemma InventoriedOnce(t: Texts, src: Source, b: Block, i: nat, j: nat)
    requires Telling(t) && Lists(src.sorted)
    requires |Discovered(t, src, b)| <= i < j < |OfficialRows(t, src, b)|
    ensures OfficialRows(t, src, b)[i].artifacts != OfficialRows(t, src, b)[j].artifacts
  {
    hide Discovered, InventoryOf;
    InventoryArtifacts(t, src, b);
    var n, names := |Discovered(t, src, b)|, Unseen(t, src, b);
    assert |OfficialRows(t, src, b)| == |Inventory(t, src, b)|;
    assert Inventory(t, src, b)[n + (i - n)].artifact == names[i - n];
    assert Inventory(t, src, b)[n + (j - n)].artifact == names[j - n];
    assert Distinct(names);
  }

  // ---------- the generator satisfies the validator ----------

  lemma BlockOpensIff(t: Texts, src: Source, b: Block)
    requires Telling(t)
    ensures Opened(t.first, BlockRows(t, src, b)) <==> Inventory(t, src, b) != []
  {
    hide Inventory;
    var rows := BlockRows(t, src, b);
    RowIds(t, src, b, 0);
    if Inventory(t, src, b) != [] {
      assert HasId(rows[0]) && t.first(rows[0].id.value);
    } else {
      assert |rows| == 1 && rows[0] == t.local(b);
    }
  }

  lemma InventoryEmptyIff(t: Texts, src: Source, b: Block)
    requires Lists(src.sorted)
    ensures Inventory(t, src, b) == [] <==> b != FileManagement && src.found(b) == [] && src.declared(b) == {}
  {
    InventoryArtifacts(t, src, b);
    var found, names := Discovered(t, src, b), Unseen(t, src, b);
    if found == [] {
      assert Artifacts(found) == {};
      assert SetOf(names) == src.declared(b) - Artifacts(found);
      assert forall x :: x in src.declared(b) <==> x in SetOf(names);
      if names != [] {
        assert names[0] in SetOf(names);
      }
    }
  }

  lemma BlockSound(t: Texts, src: Source, b: Block)
    requires Telling(t)
    ensures Sound(BlockRows(t, src, b))
  {
    hide Inventory, Required;
    assert Unverified == STATUS_VOCABULARY[1];
  }

  lemma BuiltRows(t: Texts, src: Source, b: Block)
    ensures RowsFor(Build(t, src), b) == BlockRows(t, src, b)
  {
    hide BlockRows;
    assert BLOCKS[0] == Consent && BLOCKS[1] == Payments && BLOCKS[2] == Scheduler && BLOCKS[3] == FileManagement;
    assert b in BLOCKS;
  }

  /** The generated inventory is accepted exactly when every block has something discovered or declared; File
      Management always has. */
  lemma GeneratedIsAcceptedIff(t: Texts, src: Source)
    requires Telling(t) && Lists(src.sorted)
    ensures FirstProblem(t.first, Build(t, src)) == None
       <==> forall b :: b == FileManagement || src.found(b) != [] || src.declared(b) != {}
  {
    hide FirstProblem, Opened, Sound, BlockRows, Inventory, Lists, RowsFor, Telling;
    AcceptedIff(t.first, Build(t, src));
    forall b
      ensures Sound(RowsFor(Build(t, src), b))
      ensures Opened(t.first, RowsFor(Build(t, src), b)) <==> b == FileManagement || src.found(b) != [] || src.declared(b) != {}
    {
      BuiltRows(t, src, b);
      BlockOpensIff(t, src, b);
      BlockSound(t, src, b);
      InventoryEmptyIff(t, src, b);
    }
  }

  // ---------- the same, written out ----------

  /** Row `i` of a block, before the local one. Up to the number of operations found it is an operation's row, after that
      the row of a declared artifact that no operation came from. Every field is there, the ids count from 1, and nothing
      is claimed to be verified. */
  lemma OfficialRowSays(t: Texts, src: Source, b: Block, i: nat)
    requires i < |OfficialRows(t, src, b)|
    ensures
      var row := OfficialRows(t, src, b)[i];
      var found := if b == FileManagement then [t.nothing] else src.found(b);
      var names := src.sorted(src.declared(b) - set f | f in found :: f.artifact);
      && |OfficialRows(t, src, b)| == |found| + |names|
      && row.id == Some(t.id(b, i + 1)) && row.status == Unverified && (forall f: Field :: f in row.fields)
      && (i < |found| ==>
            && row.artifacts == [t.cite(b, found[i].artifact)] && row.operation == found[i].operation
            && row.method_ == found[i].method_ && row.path == found[i].path)
      && (i >= |found| ==>
            && row.artifacts == [t.cite(b, names[i - |found|])] && row.operation == t.only(names[i - |found|])
            && row.method_ == None && row.path == None)
  {
    hide Required;
    EveryField();
    var found := Discovered(t, src, b);
    assert Artifacts(found) == set f | f in found :: f.artifact;
  }

  lemma EveryField()
    ensures forall f: Field :: f in Required()
  {
    forall f: Field
      ensures f in Required()
    {
      match f
      case Id => case BuildingBlock => case OfficialArtifacts => case OfficialOperation => case Method =>
      case OfficialPath => case RequestSchemaSource => case ResponseSchemaSource => case Identifiers =>
      case Authentication => case Authorization => case States => case StatusesErrors => case CivicosSurface =>
      case LocalTestEvidence => case StatusField => case Reason =>
    }
  }

  /** What the generator writes: version and vocabulary, and for every block its official rows and then its local one. */
  lemma BuildSays(t: Texts, src: Source, b: Block)
    ensures
      var data := Build(t, src);
      && data.schemaVersion == Some(2)
      && data.vocabulary == Some([ImplementedLocal, Unverified, Deferred, Unsupported])
      && b in data.maps && data.maps[b] == OfficialRows(t, src, b) + [t.local(b)]
  {
    hide BlockRows;
    EachBlock(t, src, b);
    assert BLOCKS[0] == Consent && BLOCKS[1] == Payments && BLOCKS[2] == Scheduler && BLOCKS[3] == FileManagement;
    assert b in BLOCKS;
  }

  lemma SoundSays(rows: seq<Row>)
    ensures Sound(rows) <==> forall i :: 0 <= i < |rows| ==>
      (forall f: Field :: f in rows[i].fields) && !rows[i].status.OtherStatus?
  {
    hide Required;
    forall i | 0 <= i < |rows|
      ensures Complete(rows[i]) <==> forall f: Field :: f in rows[i].fields
      ensures rows[i].status in STATUS_VOCABULARY <==> !rows[i].status.OtherStatus?
    {
      EveryField();
      KnownStatus(rows[i].status);
    }
  }

  lemma KnownStatus(status: Status)
    ensures status in STATUS_VOCABULARY <==> !status.OtherStatus?
  {
    assert STATUS_VOCABULARY[0] == ImplementedLocal && STATUS_VOCABULARY[1] == Unverified;
    assert STATUS_VOCABULARY[2] == Deferred && STATUS_VOCABULARY[3] == Unsupported;
  }

  /** A block's rows have every field and a known state, and one of them has a first official id, with a text for an id in
      every row before it. */
  ghost predicate Presented(first: string -> bool, data: Data, b: Block) {
    && b in data.maps
    && (forall i :: 0 <= i < |data.maps[b]| ==>
          (forall f: Field :: f in data.maps[b][i].fields) && !data.maps[b][i].status.OtherStatus?)
    && exists i :: && 0 <= i < |data.maps[b]| && (forall j :: 0 <= j <= i ==> data.maps[b][j].id.Some?)
                   && first(data.maps[b][i].id.value)
  }

  /** Acceptance, field by field: version 2, the four states, and every block presented so. */
  lemma AcceptedSays(first: string -> bool, data: Data)
    ensures FirstProblem(first, data) == None
       <==> && data.schemaVersion == Some(2)
            && data.vocabulary == Some([ImplementedLocal, Unverified, Deferred, Unsupported])
            && forall b: Block :: Presented(first, data, b)
  {
    hide FirstProblem, Required, Opened, Sound;
    AcceptedIff(first, data);
    forall b: Block
      ensures Opened(first, RowsFor(data, b)) && Sound(RowsFor(data, b)) <==> Presented(first, data, b)
    {
      SoundSays(RowsFor(data, b));
      OpenedSays(first, RowsFor(data, b));
    }
  }

  lemma OpenedSays(first: string -> bool, rows: seq<Row>)
    ensures Opened(first, rows) ==> rows != []
    ensures (forall i :: 0 <= i < |rows| ==> Id in rows[i].fields) ==>
      (Opened(first, rows) <==>
       exists i :: 0 <= i < |rows| && (forall j :: 0 <= j <= i ==> rows[j].id.Some?) && first(rows[i].id.value))
  {
    if forall i :: 0 <= i < |rows| ==> Id in rows[i].fields {
      if Opened(first, rows) {
        var i: nat :| i < |rows| && HasId(rows[i]) && first(rows[i].id.value) && forall j :: 0 <= j < i ==> HasId(rows[j]);
        assert forall j :: 0 <= j <= i ==> HasId(rows[j]);
      }
      if i: nat :| i < |rows| && (forall j :: 0 <= j <= i ==> rows[j].id.Some?) && first(rows[i].id.value) {
        assert forall j :: 0 <= j <= i ==> HasId(rows[j]);
      }
    }
  }
}
