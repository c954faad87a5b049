/** The consent evidence matrix: the validator that compares it with the OpenAPI document, and the enricher
    that fills it from the same document. */
module ConsentMatrix {
  import opened Ascii
  import opened Options
  import opened Counting

  // ---------- the OpenAPI document ----------

  /** An `operationId` as YAML and JSON give it: a text, or another scalar (a number, a truth value, null), of which
      only Python's equality matters. */
  datatype Id = TextId(text: string) | OtherId(scalar: int)

  /** An entry of a path item, an operation if its key is a method. `statuses` are the response keys in document order; the
      other cells are the descriptive values the enricher extracts. */
  datatype Operation = Operation(
    path: string, key: string, id: Id, statuses: seq<string>,
    pathParameters: Cell, requestSchema: Cell, responseSchemas: Cell, security: Cell)

  /** The path items of the document in order, each with its entries in order. */
  type Spec = seq<seq<Operation>>

  /** `method.lower() in {...}` */
  predicate IsMethod(key: string) {
    var word := Lower(key);
    word == "get" || word == "post" || word == "put" || word == "delete" || word == "patch"
  }

  // ---------- the matrix ----------

  datatype Column =
    | OperationId | Group | Method | Path | PathParameters | RequestSchema | ResponseSchemas | StatusCodes
    | ErrorDefinitions | Security | CivicosRoute | Test | VersionDisposition | ExternalGate | Disposition
    | Extra(name: string)

  datatype Cell = Str(s: string) | StrList(items: seq<string>) | Dict(keys: seq<string>) | Scalar(n: int) | Else

  datatype RawRow = NotAnObject | Object(cells: map<Column, Cell>)

  /** What `official_ops` keeps of an operation. */
  datatype Official = Official(path: string, verb: string, responses: seq<string>)

  /** `sorted` on strings: a rearrangement that depends on the members only. */
  ghost predicate IsSort(sort: seq<string> -> seq<string>) {
    && (forall xs :: multiset(sort(xs)) == multiset(xs))
    && (forall xs, ys :: multiset(xs) == multiset(ys) ==> sort(xs) == sort(ys))
  }

  // ---------- collecting operations by id ----------

  function OperationsOf(items: seq<Operation>): seq<Operation> {
    Filter((op: Operation) => IsMethod(op.key), items)
  }

  function Flatten(spec: Spec): seq<Operation> {
    if spec == [] then [] else Flatten(spec[..|spec| - 1]) + OperationsOf(spec[|spec| - 1])
  }

  /** A dictionary filled in order: a later operation replaces an earlier one with its id. */
  function Collect<V>(ops: seq<Operation>, f: Operation -> V): map<Id, V> {
    if ops == [] then map[] else Collect(ops[..|ops| - 1], f)[ops[|ops| - 1].id := f(ops[|ops| - 1])]
  }

  lemma {:induction false} CollectFrom<V>(ops: seq<Operation>, f: Operation -> V, id: Id)
    requires id in Collect(ops, f)
    ensures exists k :: 0 <= k < |ops| && ops[k].id == id && Collect(ops, f)[id] == f(ops[k])
  {
    var n := |ops| - 1;
    if ops[n].id != id {
      CollectFrom(ops[..n], f, id);
      var k :| 0 <= k < n && ops[..n][k].id == id && Collect(ops[..n], f)[id] == f(ops[..n][k]);
      assert ops[..n][k] == ops[k];
    }
  }

  /** Two dictionaries filled from the same operations hold the same keys, each from the same operation. */
  lemma {:induction false} CollectAgree<V, W>(ops: seq<Operation>, f: Operation -> V, g: Operation -> W)
    ensures Collect(ops, f).Keys == Collect(ops, g).Keys
    ensures forall id :: id in Collect(ops, f) ==>
              exists k :: 0 <= k < |ops| && ops[k].id == id && Collect(ops, f)[id] == f(ops[k]) && Collect(ops, g)[id] == g(ops[k])
  {
    if ops != [] {
      var n := |ops| - 1;
      CollectAgree(ops[..n], f, g);
      forall id | id in Collect(ops, f)
        ensures exists k :: 0 <= k < |ops| && ops[k].id == id && Collect(ops, f)[id] == f(ops[k]) && Collect(ops, g)[id] == g(ops[k])
      {
        if id == ops[n].id {
          assert Collect(ops, g)[id] == g(ops[n]);
        } else {
          var k :| 0 <= k < n && ops[..n][k].id == id
            && Collect(ops[..n], f)[id] == f(ops[..n][k]) && Collect(ops[..n], g)[id] == g(ops[..n][k]);
          assert ops[..n][k] == ops[k];
        }
      }
    }
  }

  function OfficialOf(sort: seq<string> -> seq<string>): Operation -> Official {
    (op: Operation) => Official(op.path, Upper(op.key), sort(op.statuses))
  }

  /** The inner loop: one path item's operations go into the dictionary. */
  method CollectItems<V>(f: Operation -> V, ghost before: seq<Operation>, collected: map<Id, V>, items: seq<Operation>)
    returns (result: map<Id, V>)
    requires collected == Collect(before, f)
    ensures result == Collect(before + OperationsOf(items), f)
  {
    result := collected;
    assert before + OperationsOf(items[..0]) == before;
    for j := 0 to |items|
      invariant result == Collect(before + OperationsOf(items[..j]), f)
    {
      NextItem(f, before, items, j);
      if IsMethod(items[j].key) {
        result := result[items[j].id := f(items[j])];
      }
    }
    assert items[..|items|] == items;
  }

  lemma NextItem<V>(f: Operation -> V, before: seq<Operation>, items: seq<Operation>, j: nat)
    requires j < |items|
    ensures
      var done := Collect(before + OperationsOf(items[..j]), f);
      Collect(before + OperationsOf(items[..j + 1]), f)
        == if IsMethod(items[j].key) then done[items[j].id := f(items[j])] else done
  {
    assert items[..j + 1][..j] == items[..j];
    if IsMethod(items[j].key) {
      var ops, op := before + OperationsOf(items[..j]), items[j];
      assert before + OperationsOf(items[..j + 1]) == ops + [op];
      assert (ops + [op])[..|ops|] == ops;
    } else {
      assert OperationsOf(items[..j + 1]) == OperationsOf(items[..j]);
    }
  }

  /** Both scripts walk the document this way, each keeping its own view of an operation. */
  method CollectSpec<V>(f: Operation -> V, spec: Spec) returns (collected: map<Id, V>)
    ensures collected == Collect(Flatten(spec), f)
  {
    collected := map[];
    for i := 0 to |spec|
      invariant collected == Collect(Flatten(spec[..i]), f)
    {
      collected := CollectItems(f, Flatten(spec[..i]), collected, spec[i]);
      assert spec[..i + 1][..i] == spec[..i];
    }
    assert spec[..|spec|] == spec;
  }

  /** `official_ops`, after the YAML is loaded. */
  method OfficialOps(sort: seq<string> -> seq<string>, spec: Spec) returns (operations: map<Id, Official>)
    ensures operations == Collect(Flatten(spec), OfficialOf(sort))
  {
    operations := CollectSpec(OfficialOf(sort), spec);
  }

  // ---------- the validator ----------

  predicate HasId(row: RawRow) {
    row.Object? && OperationId in row.cells && row.cells[OperationId].Str? && row.cells[OperationId].s != ""
  }

  function IdOf(row: RawRow): Id
    requires HasId(row)
  {
    TextId(row.cells[OperationId].s)
  }

  /** `row.get(column) == text` */
  predicate Says(row: RawRow, column: Column, text: string)
    requires row.Object?
  {
    column in row.cells && row.cells[column] == Str(text)
  }

  predicate ValidDisposition(row: RawRow)
    requires row.Object?
  {
    Says(row, Disposition, "match") || Says(row, Disposition, "partial") || Says(row, Disposition, "missing")
    || Says(row, Disposition, "constrained_adapter")
  }

  /** The characters of a text, each as a text. */
  function Letters(s: string): seq<string> {
    seq(|s|, i requires 0 <= i < |s| => [s[i]])
  }

  /** What `sorted(row.get("statusCodes", []))` sorts: the members of a list, the keys of an object, the characters of
      a text. Anything else makes the script stop. */
  function StatusesOf(row: RawRow): Option<seq<string>>
    requires row.Object?
  {
    if StatusCodes !in row.cells then Some([])
    else
      match row.cells[StatusCodes]
      case StrList(items) => Some(items)
      case Dict(keys) => Some(keys)
      case Str(s) => Some(Letters(s))
      case Scalar(_) => None
      case Else => None
  }

  /** `REQUIRED <= row.keys()`: the required columns are all but the extra ones. */
  predicate HasRequired(row: RawRow)
    requires row.Object?
  {
    var c := row.cells;
    && OperationId in c && Group in c && Method in c && Path in c && PathParameters in c
    && RequestSchema in c && ResponseSchemas in c && StatusCodes in c && ErrorDefinitions in c && Security in c
    && CivicosRoute in c && Test in c && VersionDisposition in c && ExternalGate in c && Disposition in c
  }

  predicate StructureOk(row: RawRow)
    requires row.Object?
  {
    HasRequired(row) && ValidDisposition(row) && (Says(row, Disposition, "match") ==> Says(row, ExternalGate, "none"))
  }

  predicate IdentityOk(sort: seq<string> -> seq<string>, row: RawRow, official: Official)
    requires row.Object?
  {
    && Says(row, Method, official.verb)
    && Says(row, Path, official.path)
    && StatusesOf(row).Some? && sort(StatusesOf(row).value) == official.responses
  }

  predicate RowOk(sort: seq<string> -> seq<string>, row: RawRow, operations: map<Id, Official>) {
    && HasId(row) && StructureOk(row)
    && IdOf(row) in operations && IdentityOk(sort, row, operations[IdOf(row)])
  }

  predicate HasIdent(row: RawRow, id: Id) {
    HasId(row) && IdOf(row) == id
  }

  ghost predicate RowsOk(sort: seq<string> -> seq<string>, rows: seq<RawRow>, operations: map<Id, Official>) {
    forall i :: 0 <= i < |rows| ==> RowOk(sort, rows[i], operations)
  }

  ghost predicate Mentions(rows: seq<RawRow>, id: Id) {
    exists i :: 0 <= i < |rows| && HasIdent(rows[i], id)
  }

  /** The matrix and the document describe the same operations, each in exactly one row. */
  ghost predicate Corresponds(sort: seq<string> -> seq<string>, rows: seq<RawRow>, operations: map<Id, Official>) {
    && RowsOk(sort, rows, operations)
    && DistinctIds(rows, |rows|)
    && (forall id :: id in operations ==> Mentions(rows, id))
  }

  datatype Error =
    | OperationsNotAList | RowNotAnObject | NoOperationId | Duplicate(id: Id) | MissingColumns(id: Id)
    | InvalidDisposition(id: Id) | MatchWithGate(id: Id) | Absent(id: Id) | MethodDiffers(id: Id)
    | PathDiffers(id: Id) | StatusesDiffer(id: Id) | CountDiffers | MissingOperation(id: Id)

  ghost predicate DistinctIds(rows: seq<RawRow>, n: nat)
    requires n <= |rows|
  {
    forall i, j :: 0 <= i < j < n && HasId(rows[i]) && HasId(rows[j]) ==> IdOf(rows[i]) != IdOf(rows[j])
  }

  /** The checks of one row that need no other row. */
  method CheckRow(sort: seq<string> -> seq<string>, row: RawRow, operations: map<Id, Official>) returns (errors: seq<Error>)
    requires HasId(row)
    ensures errors == [] <==> RowOk(sort, row, operations)
  {
    var id := IdOf(row);
    errors := [];
    if !HasRequired(row) {
      errors := errors + [MissingColumns(id)];
    }
    if !ValidDisposition(row) {
      errors := errors + [InvalidDisposition(id)];
    }
    if Says(row, Disposition, "match") && !Says(row, ExternalGate, "none") {
      errors := errors + [MatchWithGate(id)];
    }
    if id !in operations {
      errors := errors + [Absent(id)];
      return;
    }
    var official := operations[id];
    if !Says(row, Method, official.verb) {
      errors := errors + [MethodDiffers(id)];
    }
    if !Says(row, Path, official.path) {
      errors := errors + [PathDiffers(id)];
    }
    if StatusesOf(row).None? || sort(StatusesOf(row).value) != official.responses {
      errors := errors + [StatusesDiffer(id)];
    }
  }

  /** The loop over the rows: their findings, and the ids met on the way. */
  method CheckRows(sort: seq<string> -> seq<string>, list: seq<RawRow>, operations: map<Id, Official>)
    returns (errors: seq<Error>, seen: set<Id>)
    ensures errors == [] <==> RowsOk(sort, list, operations) && DistinctIds(list, |list|)
    ensures forall id :: id in seen <==> Mentions(list, id)
  {
    hide RowOk;
    errors, seen := [], {};
    for i := 0 to |list|
      invariant forall id :: id in seen <==> exists k :: 0 <= k < i && HasIdent(list[k], id)
      invariant errors == [] <==> (forall k :: 0 <= k < i ==> RowOk(sort, list[k], operations)) && DistinctIds(list, i)
    {
      var row := list[i];
      OkHasId(sort, row, operations);
      if !row.Object? {
        errors := errors + [RowNotAnObject];
      } else if !HasId(row) {
        errors := errors + [NoOperationId];
      } else {
        if IdOf(row) in seen {
          errors := errors + [Duplicate(IdOf(row))];
        }
        NextDistinct(list, i, seen);
        seen := seen + {IdOf(row)};
        var more := CheckRow(sort, row, operations);
        errors := errors + more;
      }
    }
  }

  lemma OkHasId(sort: seq<string> -> seq<string>, row: RawRow, operations: map<Id, Official>)
    ensures RowOk(sort, row, operations) ==> HasId(row)
  {
  }

  lemma NextDistinct(list: seq<RawRow>, i: nat, seen: set<Id>)
    requires i < |list| && HasId(list[i])
    requires forall id :: id in seen <==> exists k :: 0 <= k < i && HasIdent(list[k], id)
    ensures DistinctIds(list, i + 1) <==> DistinctIds(list, i) && IdOf(list[i]) !in seen
  {
    if IdOf(list[i]) in seen {
      var k :| 0 <= k < i && HasIdent(list[k], IdOf(list[i]));
      assert !DistinctIds(list, i + 1);
    }
  }

  /** The loop over the operations no row mentions. */
  method ReportMissing(missing: set<Id>) returns (errors: seq<Error>)
    ensures errors == [] <==> missing == {}
  {
    errors := [];
    var unreported := missing;
    while unreported != {}
      invariant unreported <= missing
      invariant errors == [] <==> unreported == missing
      decreases |unreported|
    {
      var id :| id in unreported;
      errors := errors + [MissingOperation(id)];
      unreported := unreported - {id};
    }
  }

  /** `validate` with a supplied document. `rows` is `None` when `operations` is not a list. */
  method Validate(sort: seq<string> -> seq<string>, rows: Option<seq<RawRow>>, operations: map<Id, Official>)
    returns (errors: seq<Error>)
    ensures errors == [] <==> rows.Some? && Corresponds(sort, rows.value, operations)
  {
    if rows.None? {
      return [OperationsNotAList];
    }
    var list := rows.value;
    var perRow, seen := CheckRows(sort, list, operations);
    errors := perRow;
    if |list| != |operations| {
      errors := errors + [CountDiffers];
    }
    var missing := operations.Keys - seen;
    var more := ReportMissing(missing);
    errors := errors + more;
    if perRow == [] {
      CountFollows(sort, list, operations, seen);
    }
    if operations.Keys <= seen {
      assert missing == {};
    } else {
      var id :| id in operations.Keys && id !in seen;
      assert id in missing;
    }
  }

  function Ids(rows: seq<RawRow>): seq<Id>
    requires forall i :: 0 <= i < |rows| ==> HasId(rows[i])
  {
    seq(|rows|, i requires 0 <= i < |rows| => IdOf(rows[i]))
  }

  /** Rows with distinct official ids cover the document exactly when there are as many as operations. */
  lemma CountFollows(sort: seq<string> -> seq<string>, rows: seq<RawRow>, operations: map<Id, Official>, seen: set<Id>)
    requires RowsOk(sort, rows, operations)
    requires DistinctIds(rows, |rows|)
    requires forall id :: id in seen <==> Mentions(rows, id)
    ensures |rows| == |operations| <==> operations.Keys <= seen
  {
    forall i | 0 <= i < |rows|
      ensures HasId(rows[i]) && IdOf(rows[i]) in operations
    {
      assert RowOk(sort, rows[i], operations);
    }
    CountIds(rows, operations.Keys, seen);
    assert |operations| == |operations.Keys|;
  }

  lemma CountIds(rows: seq<RawRow>, keys: set<Id>, seen: set<Id>)
    requires forall i :: 0 <= i < |rows| ==> HasId(rows[i]) && IdOf(rows[i]) in keys
    requires DistinctIds(rows, |rows|)
    requires forall id :: id in seen <==> Mentions(rows, id)
    ensures |rows| == |keys| <==> keys <= seen
  {
    var ids := Ids(rows);
    SetSizeIff(ids);
    assert SetOf(ids) <= keys;
    forall id
      ensures id in SetOf(ids) <==> id in seen
    {
      if id in SetOf(ids) {
        var k :| 0 <= k < |ids| && ids[k] == id;
        assert HasIdent(rows[k], id);
      }
      if id in seen {
        var k :| 0 <= k < |rows| && HasIdent(rows[k], id);
        assert ids[k] == id;
      }
    }
    assert SetOf(ids) == seen;
    if |rows| == |keys| {
      FullSubset(seen, keys);
    }
    if keys <= seen {
      assert keys == seen;
    }
  }
}
