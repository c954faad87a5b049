/** The enricher of the consent matrix, and exactly when what it writes satisfies the validator. */
module ConsentEnricher {
  import opened Ascii
  import opened Options
  import opened ConsentMatrix
  import opened Counting

  /** The fixed texts the enricher writes into every row. */
  datatype Notes = Notes(route: string, test: string, version: string, gate: string)

  /** Statuses other than `default` and the successes. */
  function ErrorStatuses(statuses: seq<string>): seq<string> {
    Filter((s: string) => s != "default" && !("2" <= s), statuses)
  }

  function IdCell(id: Id): Cell {
    match id
    case TextId(text) => Str(text)
    case OtherId(scalar) => Scalar(scalar)
  }

  /** `operation_metadata` */
  function MetadataOf(sort: seq<string> -> seq<string>): Operation -> map<Column, Cell> {
    (op: Operation) => map[
      OperationId := IdCell(op.id),
      Method := Str(Upper(op.key)),
      Path := Str(op.path),
      PathParameters := op.pathParameters,
      RequestSchema := op.requestSchema,
      ResponseSchemas := op.responseSchemas,
      StatusCodes := StrList(sort(op.statuses)),
      ErrorDefinitions := StrList(ErrorStatuses(op.statuses)),
      Security := op.security]
  }

  function FixedCells(notes: Notes): map<Column, Cell> {
    map[
      CivicosRoute := Str(notes.route),
      Test := Str(notes.test),
      VersionDisposition := Str(notes.version),
      ExternalGate := Str(notes.gate),
      Disposition := Str("partial")]
  }

  /** `row["operationId"]` is there and can be a key of a dictionary. */
  predicate HasKey(row: RawRow) {
    row.Object? && OperationId in row.cells && (row.cells[OperationId].Str? || row.cells[OperationId].Scalar?)
  }

  predicate AllHaveKeys(rows: seq<RawRow>) {
    forall i :: 0 <= i < |rows| ==> HasKey(rows[i])
  }

  function KeyOf(row: RawRow): Id
    requires HasKey(row)
  {
    if row.cells[OperationId].Str? then TextId(row.cells[OperationId].s) else OtherId(row.cells[OperationId].n)
  }

  /** An id the validator takes for one: a text, and not empty. */
  predicate GoodId(id: Id) {
    id.TextId? && id.text != ""
  }

  function Keys(rows: seq<RawRow>): set<Id>
    requires AllHaveKeys(rows)
  {
    set i | 0 <= i < |rows| :: KeyOf(rows[i])
  }

  /** No later row has the same id: the row a dictionary by id ends up with. */
  predicate IsLast(rows: seq<RawRow>, i: nat)
    requires AllHaveKeys(rows) && i < |rows|
  {
    forall j :: i < j < |rows| ==> KeyOf(rows[j]) != KeyOf(rows[i])
  }

  /** `row.update(metadata)` and the fixed assignments after it. */
  function Updated(notes: Notes): (RawRow, map<Column, Cell>) -> RawRow {
    (row: RawRow, metadata: map<Column, Cell>) =>
      if row.Object? then Object(row.cells + metadata + FixedCells(notes)) else row
  }

  /** The last row of each id, updated from that id's operation; the other rows as they were. */
  function Enriched<M>(update: (RawRow, M) -> RawRow, rows: seq<RawRow>, metadata: map<Id, M>): seq<RawRow>
    requires AllHaveKeys(rows) && Keys(rows) == metadata.Keys
  {
    seq(|rows|, i requires 0 <= i < |rows| => PartlyEnriched(update, rows, metadata, {}, i))
  }

  /** Row `i` while the ids in `pending` still wait. */
  function PartlyEnriched<M>(
    update: (RawRow, M) -> RawRow, rows: seq<RawRow>, metadata: map<Id, M>, pending: set<Id>, i: nat): RawRow
    requires AllHaveKeys(rows) && Keys(rows) == metadata.Keys && i < |rows|
  {
    assert KeyOf(rows[i]) in Keys(rows);
    if IsLast(rows, i) && KeyOf(rows[i]) !in pending then update(rows[i], metadata[KeyOf(rows[i])]) else rows[i]
  }

  class Matrix {
    var operations: seq<RawRow>

    /** `rows = {row["operationId"]: row for ...}`: each id with the index of its last row; `None` when a row
        is no object or has no id that can be a key. */
    method IndexRows() returns (index: Option<map<Id, nat>>)
      ensures index.None? <==> !AllHaveKeys(operations)
      ensures index.Some? ==>
        && index.value.Keys == Keys(operations)
        && forall id :: id in index.value ==>
            index.value[id] < |operations| && KeyOf(operations[index.value[id]]) == id && IsLast(operations, index.value[id])
    {
      var built: map<Id, nat> := map[];
      for i := 0 to |operations|
        invariant AllHaveKeys(operations[..i])
        invariant forall k :: 0 <= k < i ==> KeyOf(operations[..i][k]) in built
        invariant forall id :: id in built ==> built[id] < i && HasKey(operations[built[id]]) && KeyOf(operations[built[id]]) == id
        invariant forall id, j :: id in built && built[id] < j < i ==> HasKey(operations[j]) && KeyOf(operations[j]) != id
      {
        if !HasKey(operations[i]) {
          return None;
        }
        assert operations[..i + 1] == operations[..i] + [operations[i]];
        built := built[KeyOf(operations[i]) := i];
      }
      assert operations[..|operations|] == operations;
      return Some(built);
    }

    /** `main` after loading: refuses when the ids of the rows and of the document differ, and otherwise updates
        the indexed rows in place. */
    method Enrich(sort: seq<string> -> seq<string>, notes: Notes, spec: Spec) returns (enriched: bool)
      modifies this
      ensures
        var metadata := Collect(Flatten(spec), MetadataOf(sort));
        var rows := old(operations);
        && (enriched <==> AllHaveKeys(rows) && Keys(rows) == metadata.Keys)
        && operations == if enriched then Enriched(Updated(notes), rows, metadata) else rows
    {
      var official := CollectSpec(MetadataOf(sort), spec);
      var rows := IndexRows();
      if rows.None? || rows.value.Keys != official.Keys {
        return false;
      }
      UpdateRows(Updated(notes), rows.value, official);
      return true;
    }

    /** The update loop; the ids may come in any order, since each has a row of its own. */
    method UpdateRows<M>(update: (RawRow, M) -> RawRow, index: map<Id, nat>, official: map<Id, M>)
      requires AllHaveKeys(operations) && Keys(operations) == official.Keys == index.Keys
      requires forall id :: id in index ==>
        index[id] < |operations| && KeyOf(operations[index[id]]) == id && IsLast(operations, index[id])
      modifies this
      ensures operations == Enriched(update, old(operations), official)
    {
      hide IsLast, PartlyEnriched;
      ghost var before := operations;
      var pending := official.Keys;
      NonePending(update, before, official);
      while pending != {}
        invariant pending <= official.Keys
        invariant operations == WithoutPending(update, before, official, pending)
        decreases |pending|
      {
        var id :| id in pending;
        OneRowFewer(update, before, official, pending, id, index[id]);
        operations := operations[index[id] := update(operations[index[id]], official[id])];
        pending := pending - {id};
      }
    }
  }

  ghost function WithoutPending<M>(
    update: (RawRow, M) -> RawRow, rows: seq<RawRow>, metadata: map<Id, M>, pending: set<Id>): seq<RawRow>
    requires AllHaveKeys(rows) && Keys(rows) == metadata.Keys
  {
    seq(|rows|, i requires 0 <= i < |rows| => PartlyEnriched(update, rows, metadata, pending, i))
  }

  lemma NonePending<M>(update: (RawRow, M) -> RawRow, rows: seq<RawRow>, metadata: map<Id, M>)
    requires AllHaveKeys(rows) && Keys(rows) == metadata.Keys
    ensures WithoutPending(update, rows, metadata, metadata.Keys) == rows
    ensures WithoutPending(update, rows, metadata, {}) == Enriched(update, rows, metadata)
  {
    forall i | 0 <= i < |rows|
      ensures KeyOf(rows[i]) in metadata
    {
      assert KeyOf(rows[i]) in Keys(rows);
    }
  }

  lemma OneRowFewer<M>(
    update: (RawRow, M) -> RawRow, rows: seq<RawRow>, metadata: map<Id, M>, pending: set<Id>, id: Id, i: nat)
    requires AllHaveKeys(rows) && Keys(rows) == metadata.Keys && i < |rows|
    requires id in pending && KeyOf(rows[i]) == id && IsLast(rows, i)
    ensures id in metadata
    ensures
      var partly := WithoutPending(update, rows, metadata, pending);
      WithoutPending(update, rows, metadata, pending - {id}) == partly[i := update(partly[i], metadata[id])]
  {
    assert id in Keys(rows);
    var partly, more := WithoutPending(update, rows, metadata, pending), WithoutPending(update, rows, metadata, pending - {id});
    forall j | 0 <= j < |rows|
      ensures more[j] == partly[i := update(partly[i], metadata[id])][j]
    {
      assert KeyOf(rows[j]) == id && IsLast(rows, j) ==> i == j;
    }
  }

  // ---------- the enricher against the validator ----------

  predicate HasGroup(row: RawRow) {
    row.Object? && Group in row.cells
  }

  ghost predicate DistinctKeys(rows: seq<RawRow>)
    requires AllHaveKeys(rows)
  {
    forall i, j :: 0 <= i < j < |rows| ==> KeyOf(rows[i]) != KeyOf(rows[j])
  }

  /** What the rows need before enriching: each id once, a text and not empty, and a group in every row. */
  ghost predicate ReadyToEnrich(rows: seq<RawRow>)
    requires AllHaveKeys(rows)
  {
    DistinctKeys(rows) && forall i :: 0 <= i < |rows| ==> GoodId(KeyOf(rows[i])) && HasGroup(rows[i])
  }

  /** The cells an update leaves behind, column by column. */
  lemma UpdatedCells(sort: seq<string> -> seq<string>, notes: Notes, row: RawRow, op: Operation)
    requires row.Object?
    ensures
      var updated := Updated(notes)(row, MetadataOf(sort)(op));
      && updated.Object?
      && FilledFor(sort, updated.cells, op)
      && (Group in updated.cells <==> Group in row.cells)
  {
    MetadataCells(sort, op);
    FixedCellsHold(notes);
    MergedCells(sort, row.cells, MetadataOf(sort)(op), FixedCells(notes), op);
  }

  ghost predicate MetadataFor(sort: seq<string> -> seq<string>, c: map<Column, Cell>, op: Operation) {
    && OperationId in c && c[OperationId] == IdCell(op.id)
    && Method in c && c[Method] == Str(Upper(op.key))
    && Path in c && c[Path] == Str(op.path)
    && StatusCodes in c && c[StatusCodes] == StrList(sort(op.statuses))
    && PathParameters in c && RequestSchema in c && ResponseSchemas in c && ErrorDefinitions in c && Security in c
    && Group !in c
  }

  lemma MetadataCells(sort: seq<string> -> seq<string>, op: Operation)
    ensures MetadataFor(sort, MetadataOf(sort)(op), op)
  {
  }

  ghost predicate FixedFor(c: map<Column, Cell>) {
    && c.Keys == {CivicosRoute, Test, VersionDisposition, ExternalGate, Disposition}
    && c[Disposition] == Str("partial")
  }

  lemma FixedCellsHold(notes: Notes)
    ensures FixedFor(FixedCells(notes))
  {
  }

  lemma MergedCells(
    sort: seq<string> -> seq<string>, cells: map<Column, Cell>, metadata: map<Column, Cell>, fixed: map<Column, Cell>, op: Operation)
    requires MetadataFor(sort, metadata, op) && FixedFor(fixed)
    ensures FilledFor(sort, cells + metadata + fixed, op)
    ensures Group in cells + metadata + fixed <==> Group in cells
  {
  }

  ghost predicate FilledFor(sort: seq<string> -> seq<string>, c: map<Column, Cell>, op: Operation) {
    && OperationId in c && c[OperationId] == IdCell(op.id)
    && Method in c && c[Method] == Str(Upper(op.key))
    && Path in c && c[Path] == Str(op.path)
    && StatusCodes in c && c[StatusCodes] == StrList(sort(op.statuses))
    && Disposition in c && c[Disposition] == Str("partial")
    && PathParameters in c && RequestSchema in c && ResponseSchemas in c && ErrorDefinitions in c && Security in c
    && CivicosRoute in c && Test in c && VersionDisposition in c && ExternalGate in c
  }

  /** A row filled from an operation passes every check against that operation, given a group and an id. */
  lemma FilledRowOk(
    sort: seq<string> -> seq<string>, cells: map<Column, Cell>, op: Operation, operations: map<Id, Official>)
    requires IsSort(sort) && FilledFor(sort, cells, op)
    requires op.id in operations && operations[op.id] == Official(op.path, Upper(op.key), sort(op.statuses))
    ensures RowOk(sort, Object(cells), operations) <==> GoodId(op.id) && Group in cells
  {
    assert Str("partial") != Str("match") by {
      assert |"partial"| != |"match"|;
    }
  }

  /** The metadata and the official view of an id come from one and the same operation. */
  lemma SameOperation(sort: seq<string> -> seq<string>, ops: seq<Operation>, id: Id) returns (op: Operation)
    requires id in Collect(ops, MetadataOf(sort))
    ensures op.id == id && id in Collect(ops, OfficialOf(sort))
    ensures Collect(ops, MetadataOf(sort))[id] == MetadataOf(sort)(op)
    ensures Collect(ops, OfficialOf(sort))[id] == Official(op.path, Upper(op.key), sort(op.statuses))
  {
    var f, g := MetadataOf(sort), OfficialOf(sort);
    CollectAgree(ops, f, g);
    var k :| 0 <= k < |ops| && ops[k].id == id && Collect(ops, f)[id] == f(ops[k]) && Collect(ops, g)[id] == g(ops[k]);
    op := ops[k];
  }

  /** One enriched row: its id stays and so does its group; the last row of an id passes every check exactly
      when its id is a text and not empty and it has a group. */
  lemma {:induction false} EnrichedRow(
    sort: seq<string> -> seq<string>, notes: Notes, ops: seq<Operation>, rows: seq<RawRow>,
    metadata: map<Id, map<Column, Cell>>, official: map<Id, Official>, i: nat)
    requires IsSort(sort) && AllHaveKeys(rows) && i < |rows|
    requires metadata == Collect(ops, MetadataOf(sort)) && official == Collect(ops, OfficialOf(sort))
    requires Keys(rows) == metadata.Keys
    ensures
      var row := PartlyEnriched(Updated(notes), rows, metadata, {}, i);
      && HasKey(row) && KeyOf(row) == KeyOf(rows[i])
      && (HasGroup(row) <==> HasGroup(rows[i]))
      && (IsLast(rows, i) ==> (RowOk(sort, row, official) <==> GoodId(KeyOf(rows[i])) && HasGroup(rows[i])))
  {
    var id := KeyOf(rows[i]);
    assert id in Keys(rows);
    var op := SameOperation(sort, ops, id);
    if IsLast(rows, i) {
      var row := Updated(notes)(rows[i], metadata[id]);
      UpdatedCells(sort, notes, rows[i], op);
      FilledRowOk(sort, row.cells, op, official);
    }
  }

  /** What the enricher writes satisfies the validator exactly when the rows were ready: each id once, a
      text and not empty, and a group in every row. A repeated id or one number for an id is enough to fail it. */
  lemma {:induction false} EnrichedValidatesIff(
    sort: seq<string> -> seq<string>, notes: Notes, spec: Spec, rows: seq<RawRow>,
    metadata: map<Id, map<Column, Cell>>, official: map<Id, Official>)
    requires IsSort(sort) && AllHaveKeys(rows)
    requires metadata == Collect(Flatten(spec), MetadataOf(sort)) && official == Collect(Flatten(spec), OfficialOf(sort))
    requires Keys(rows) == metadata.Keys
    ensures Corresponds(sort, Enriched(Updated(notes), rows, metadata), official) <==> ReadyToEnrich(rows)
  {
    var ops := Flatten(spec);
    var enriched := Enriched(Updated(notes), rows, metadata);
    forall i | 0 <= i < |rows|
      ensures HasKey(enriched[i]) && KeyOf(enriched[i]) == KeyOf(rows[i])
      ensures HasGroup(enriched[i]) <==> HasGroup(rows[i])
      ensures IsLast(rows, i) ==> (RowOk(sort, enriched[i], official) <==> GoodId(KeyOf(rows[i])) && HasGroup(rows[i]))
    {
      EnrichedRow(sort, notes, ops, rows, metadata, official, i);
    }
    CollectAgree(ops, MetadataOf(sort), OfficialOf(sort));
    EnrichedCorresponds(sort, rows, enriched, official);
  }

  lemma EnrichedCorresponds(
    sort: seq<string> -> seq<string>, rows: seq<RawRow>, enriched: seq<RawRow>, official: map<Id, Official>)
    requires AllHaveKeys(rows) && |enriched| == |rows| && Keys(rows) == official.Keys
    requires forall i :: 0 <= i < |rows| ==> HasKey(enriched[i]) && KeyOf(enriched[i]) == KeyOf(rows[i])
    requires forall i :: 0 <= i < |rows| ==> (HasGroup(enriched[i]) <==> HasGroup(rows[i]))
    requires forall i :: 0 <= i < |rows| && IsLast(rows, i) ==>
      (RowOk(sort, enriched[i], official) <==> GoodId(KeyOf(rows[i])) && HasGroup(rows[i]))
    ensures Corresponds(sort, enriched, official) <==> ReadyToEnrich(rows)
  {
    if ReadyToEnrich(rows) {
      forall i | 0 <= i < |rows|
        ensures RowOk(sort, enriched[i], official)
      {
        assert IsLast(rows, i);
      }
      forall id | id in official
        ensures Mentions(enriched, id)
      {
        assert id in Keys(rows);
        var i :| 0 <= i < |rows| && KeyOf(rows[i]) == id;
        assert HasIdent(enriched[i], id);
      }
    }
    if Corresponds(sort, enriched, official) {
      forall i | 0 <= i < |rows|
        ensures GoodId(KeyOf(rows[i])) && HasGroup(rows[i])
      {
        assert RowOk(sort, enriched[i], official);
        assert HasGroup(enriched[i]);
      }
      forall i, j | 0 <= i < j < |rows|
        ensures KeyOf(rows[i]) != KeyOf(rows[j])
      {
        assert IdOf(enriched[i]) != IdOf(enriched[j]);
      }
    }
  }
}
