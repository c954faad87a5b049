/** The consent matrix scripts without their loops: which entry of the document an id stands for, what a row must say to
    pass, and what enriching leaves in every cell. */
module ConsentMeaning {
  import opened Ascii
  import opened Options
  import opened ConsentEnricher
  import opened ConsentMatrix
  import opened Counting

  // ---------- the entry behind an id ----------

  /** Entry `j` of path item `i` stands under a method, in whatever case it is written, and has the id. */
  ghost predicate EntryAt(spec: Spec, id: Id, i: int, j: int) {
    && 0 <= i < |spec| && 0 <= j < |spec[i]|
    && Lower(spec[i][j].key) in {"get", "post", "put", "delete", "patch"} && spec[i][j].id == id
  }

  /** No entry with the id follows it in the document. */
  ghost predicate LastEntry(spec: Spec, id: Id, i: int, j: int) {
    EntryAt(spec, id, i, j) && forall k, l :: EntryAt(spec, id, k, l) ==> k < i || (k == i && l <= j)
  }

  /** `(i, j)` is read before `(k, l)`. */
  predicate Ahead(p: (nat, nat), q: (nat, nat)) {
    p.0 < q.0 || (p.0 == q.0 && p.1 < q.1)
  }

  /** `at` are the places of the entries under methods, in reading order. */
  ghost predicate EntriesOf(spec: Spec, at: seq<(nat, nat)>) {
    && (forall k, l :: 0 <= k < l < |at| ==> Ahead(at[k], at[l]))
    && forall p :: p in at <==> p.0 < |spec| && p.1 < |spec[p.0]| && IsMethod(spec[p.0][p.1].key)
  }

  function InItem(n: nat, inside: seq<nat>): seq<(nat, nat)> {
    seq(|inside|, k requires 0 <= k < |inside| => (n, inside[k]))
  }

  lemma MorePlaces(front: Spec, before: seq<(nat, nat)>, items: seq<Operation>, inside: seq<nat>)
    requires EntriesOf(front, before)
    requires PlacesOf((op: Operation) => IsMethod(op.key), items, inside)
    ensures EntriesOf(front + [items], before + InItem(|front|, inside))
  {
    hide IsMethod;
    var n, at := |front|, before + InItem(|front|, inside);
    var spec: Spec := front + [items];
    assert forall k :: 0 <= k < |before| ==> before[k] in before;
    assert forall k :: 0 <= k < |inside| ==> inside[k] < |items| && IsMethod(items[inside[k]].key);
    forall p: (nat, nat)
      ensures p in at <==> p.0 < |spec| && p.1 < |spec[p.0]| && IsMethod(spec[p.0][p.1].key)
    {
      if p.0 == n {
        if p.1 in inside {
          var k :| 0 <= k < |inside| && inside[k] == p.1;
          assert at[|before| + k] == p;
        }
      } else {
        assert p in at <==> p in before;
      }
    }
  }

  lemma {:induction false} Places(spec: Spec) returns (at: seq<(nat, nat)>)
    ensures Laid(spec, at, Flatten(spec))
    decreases |spec|
  {
    if spec == [] {
      at := [];
    } else {
      hide IsMethod, EntriesOf, Flatten, Laid;
      var n := |spec| - 1;
      var front, items := spec[..n], spec[n];
      var before := Places(front);
      var inside := FilterPicks((op: Operation) => IsMethod(op.key), items);
      at := before + InItem(n, inside);
      LaidOn(front, before, items, inside);
      assert spec == front + [items];
    }
  }

  lemma LaidOn(front: Spec, before: seq<(nat, nat)>, items: seq<Operation>, inside: seq<nat>)
    requires Laid(front, before, Flatten(front)) && PlacesOf((op: Operation) => IsMethod(op.key), items, inside)
    requires OperationsOf(items) == Picked(items, inside)
    ensures Laid(front + [items], before + InItem(|front|, inside), Flatten(front + [items]))
  {
    hide IsMethod, EntriesOf, OperationsOf, Flatten;
    MorePlaces(front, before, items, inside);
    FlattenSnoc(front, items);
    var at: seq<(nat, nat)> := before + InItem(|front|, inside);
    var spec: Spec := front + [items];
    forall k | 0 <= k < |at|
      ensures at[k].0 < |spec| && at[k].1 < |spec[at[k].0]| && Flatten(spec)[k] == spec[at[k].0][at[k].1]
    {
      if k < |before| {
        assert at[k] == before[k];
      } else {
        assert at[k] == (|front|, inside[k - |before|]);
      }
    }
  }

  lemma FlattenSnoc(front: Spec, items: seq<Operation>)
    ensures Flatten(front + [items]) == Flatten(front) + OperationsOf(items)
  {
    assert (front + [items])[..|front|] == front;
  }

  lemma {:induction false} LastWins<V>(ops: seq<Operation>, f: Operation -> V, k: nat)
    requires k < |ops| && forall l :: k < l < |ops| ==> ops[l].id != ops[k].id
    ensures ops[k].id in Collect(ops, f) && Collect(ops, f)[ops[k].id] == f(ops[k])
    decreases |ops|
  {
    var n := |ops| - 1;
    if k < n {
      LastWins(ops[..n], f, k);
    }
  }

  lemma EntriesPlaced(spec: Spec, at: seq<(nat, nat)>, id: Id)
    requires EntriesOf(spec, at)
    ensures forall i, j :: EntryAt(spec, id, i, j) ==> i >= 0 && j >= 0 && (i, j) in at && spec[i][j].id == id
    ensures forall p :: p in at ==> p.0 < |spec| && p.1 < |spec[p.0]| && EntryAt(spec, spec[p.0][p.1].id, p.0, p.1)
  {
  }

  /** The flat list against the places of its members. */
  ghost predicate Laid(spec: Spec, at: seq<(nat, nat)>, ops: seq<Operation>) {
    && EntriesOf(spec, at) && |at| == |ops|
    && forall k :: 0 <= k < |at| ==> at[k].0 < |spec| && at[k].1 < |spec[at[k].0]| && ops[k] == spec[at[k].0][at[k].1]
  }

  lemma EntryIffPlaced(spec: Spec, at: seq<(nat, nat)>, ops: seq<Operation>, id: Id)
    requires Laid(spec, at, ops)
    ensures (exists i, j :: EntryAt(spec, id, i, j)) <==> exists k :: 0 <= k < |ops| && ops[k].id == id
  {
    hide EntryAt;
    EntriesPlaced(spec, at, id);
    if k :| 0 <= k < |ops| && ops[k].id == id {
      assert at[k] in at && EntryAt(spec, id, at[k].0, at[k].1);
    }
    if i, j :| EntryAt(spec, id, i, j) {
      var k :| 0 <= k < |at| && at[k] == (i, j);
      assert ops[k].id == id;
    }
  }

  lemma LastPlaced(spec: Spec, at: seq<(nat, nat)>, ops: seq<Operation>, id: Id, i: int, j: int) returns (k: nat)
    requires Laid(spec, at, ops) && LastEntry(spec, id, i, j)
    ensures k < |ops| && ops[k] == spec[i][j] && ops[k].id == id
    ensures forall l :: k < l < |ops| ==> ops[l].id != id
  {
    hide EntryAt;
    EntriesPlaced(spec, at, id);
    k :| 0 <= k < |at| && at[k] == (i, j);
    forall l | k < l < |ops|
      ensures ops[l].id != id
    {
      assert Ahead(at[k], at[l]) && at[l] in at;
      assert !EntryAt(spec, id, at[l].0, at[l].1);
    }
  }

  /** The dictionary both scripts fill has exactly the ids under methods, and each id leads to its last entry. */
  lemma {:induction false} EntryBehindId<V>(spec: Spec, f: Operation -> V, id: Id)
    ensures id in Collect(Flatten(spec), f) <==> exists i, j :: EntryAt(spec, id, i, j)
    ensures forall i, j :: LastEntry(spec, id, i, j) ==>
      0 <= i < |spec| && 0 <= j < |spec[i]| && Collect(Flatten(spec), f)[id] == f(spec[i][j])
  {
    hide Flatten, Laid, LastEntry, EntryAt;
    var ops := Flatten(spec);
    var at := Places(spec);
    EntryIffPlaced(spec, at, ops, id);
    if id in Collect(ops, f) {
      CollectFrom(ops, f, id);
    }
    if k :| 0 <= k < |ops| && ops[k].id == id {
      IdCollected(ops, f, k);
    }
    forall i, j | LastEntry(spec, id, i, j)
      ensures 0 <= i < |spec| && 0 <= j < |spec[i]| && id in Collect(ops, f) && Collect(ops, f)[id] == f(spec[i][j])
    {
      EntryInside(spec, id, i, j);
      var k := LastPlaced(spec, at, ops, id, i, j);
      LastWins(ops, f, k);
    }
  }

  lemma EntryInside(spec: Spec, id: Id, i: int, j: int)
    requires LastEntry(spec, id, i, j)
    ensures 0 <= i < |spec| && 0 <= j < |spec[i]| && EntryAt(spec, id, i, j)
  {
  }

  lemma {:induction false} IdCollected<V>(ops: seq<Operation>, f: Operation -> V, k: nat)
    requires k < |ops|
    ensures ops[k].id in Collect(ops, f)
    decreases |ops|
  {
    if k < |ops| - 1 {
      IdCollected(ops[..|ops| - 1], f, k);
    }
  }

  /** What the validator keeps of the last entry of an id: its path, its method in upper case, and its statuses sorted. */
  lemma OfficialSays(spec: Spec, sort: seq<string> -> seq<string>, id: Id, i: int, j: int)
    requires LastEntry(spec, id, i, j)
    ensures
      var operations, op := Collect(Flatten(spec), OfficialOf(sort)), spec[i][j];
      id in operations && operations[id].path == op.path && operations[id].verb == Upper(op.key)
      && operations[id].responses == sort(op.statuses)
  {
    hide EntryAt, Flatten;
    EntryBehindId(spec, OfficialOf(sort), id);
  }

  // ---------- a row that passes ----------

  /** All columns but the extra ones, a text for an id, one of the four dispositions and no gate behind a match, and method,
      path and statuses as the document has them. */
  lemma RowOkSays(sort: seq<string> -> seq<string>, row: RawRow, operations: map<Id, Official>)
    ensures RowOk(sort, row, operations) <==>
      && row.Object?
      && (forall c: Column :: c.Extra? || c in row.cells)
      && row.cells[OperationId].Str? && row.cells[OperationId].s != ""
      && row.cells[Disposition].Str?
      && row.cells[Disposition].s in ["match", "partial", "missing", "constrained_adapter"]
      && (row.cells[Disposition].s == "match" ==> row.cells[ExternalGate] == Str("none"))
      && var id := TextId(row.cells[OperationId].s);
         && id in operations
         && row.cells[Method] == Str(operations[id].verb) && row.cells[Path] == Str(operations[id].path)
         && (match row.cells[StatusCodes]
             case StrList(items) => sort(items) == operations[id].responses
             case Dict(keys) => sort(keys) == operations[id].responses
             case Str(s) => sort(seq(|s|, i requires 0 <= i < |s| => [s[i]])) == operations[id].responses
             case _ => false)
  {
    if row.Object? {
      if StatusCodes in row.cells && row.cells[StatusCodes].Str? {
        var s := row.cells[StatusCodes].s;
        assert Letters(s) == seq(|s|, i requires 0 <= i < |s| => [s[i]]);
      }
    }
  }

  // ---------- an enriched row ----------

  /** The error definitions are the statuses that are neither `default` nor start with a 2, in document order. */
  lemma ErrorStatusesSay(statuses: seq<string>) returns (at: seq<nat>)
    ensures forall k, l :: 0 <= k < l < |at| ==> at[k] < at[l]
    ensures forall k :: 0 <= k < |at| ==> at[k] < |statuses|
    ensures forall i :: i in at <==> 0 <= i < |statuses| && statuses[i] != "default" && (statuses[i] == "" || statuses[i][0] != '2')
    ensures |ErrorStatuses(statuses)| == |at| && forall k :: 0 <= k < |at| ==> ErrorStatuses(statuses)[k] == statuses[at[k]]
  {
    at := FilterPicks((s: string) => s != "default" && !("2" <= s), statuses);
  }

  lemma MetadataSays(sort: seq<string> -> seq<string>, op: Operation)
    ensures
      var m := MetadataOf(sort)(op);
      && (forall c: Column :: c in m <==> c.OperationId? || c.Method? || c.Path? || c.PathParameters? || c.RequestSchema?
                                          || c.ResponseSchemas? || c.StatusCodes? || c.ErrorDefinitions? || c.Security?)
      && m[OperationId] == (if op.id.TextId? then Str(op.id.text) else Scalar(op.id.scalar))
      && m[Method] == Str(Upper(op.key)) && m[Path] == Str(op.path)
      && m[PathParameters] == op.pathParameters && m[RequestSchema] == op.requestSchema
      && m[ResponseSchemas] == op.responseSchemas && m[Security] == op.security
      && m[StatusCodes] == StrList(sort(op.statuses)) && m[ErrorDefinitions] == StrList(ErrorStatuses(op.statuses))
  {
    hide Upper, ErrorStatuses;
  }

  lemma FixedSays(notes: Notes)
    ensures
      var m := FixedCells(notes);
      && (forall c: Column :: c in m <==> c.CivicosRoute? || c.Test? || c.VersionDisposition? || c.ExternalGate? || c.Disposition?)
      && m[CivicosRoute] == Str(notes.route) && m[Test] == Str(notes.test) && m[VersionDisposition] == Str(notes.version)
      && m[ExternalGate] == Str(notes.gate) && m[Disposition] == Str("partial")
  {
  }

  lemma Merged<K, V>(a: map<K, V>, b: map<K, V>, c: map<K, V>, k: K)
    ensures k in a + b + c <==> k in a || k in b || k in c
    ensures k in a + b + c ==> (a + b + c)[k] == if k in c then c[k] else if k in b then b[k] else a[k]
  {
  }

  /** Every cell of an updated row: nine are the operation's, five are fixed, and the group and the extra columns are as they
      were. */
  lemma UpdatedSays(sort: seq<string> -> seq<string>, notes: Notes, row: RawRow, op: Operation, c: Column)
    requires row.Object?
    ensures
      var updated := Updated(notes)(row, MetadataOf(sort)(op));
      && updated.Object?
      && (c in updated.cells <==> c in row.cells || !(c.Group? || c.Extra?))
      && (c in updated.cells ==> updated.cells[c] == match c
            case OperationId => if op.id.TextId? then Str(op.id.text) else Scalar(op.id.scalar)
            case Method => Str(Upper(op.key))
            case Path => Str(op.path)
            case PathParameters => op.pathParameters
            case RequestSchema => op.requestSchema
            case ResponseSchemas => op.responseSchemas
            case StatusCodes => StrList(sort(op.statuses))
            case ErrorDefinitions => StrList(ErrorStatuses(op.statuses))
            case Security => op.security
            case CivicosRoute => Str(notes.route)
            case Test => Str(notes.test)
            case VersionDisposition => Str(notes.version)
            case ExternalGate => Str(notes.gate)
            case Disposition => Str("partial")
            case _ => row.cells[c])
  {
    hide MetadataOf, FixedCells, Upper, ErrorStatuses;
    MetadataSays(sort, op);
    FixedSays(notes);
    Merged(row.cells, MetadataOf(sort)(op), FixedCells(notes), c);
  }

  /** Of the rows with one id only the last is updated, from that id's operation. */
  lemma EnrichedSays<M>(update: (RawRow, M) -> RawRow, rows: seq<RawRow>, metadata: map<Id, M>, i: nat)
    requires AllHaveKeys(rows) && Keys(rows) == metadata.Keys && i < |rows|
    ensures
      var cell := rows[i].cells[OperationId];
      var id := if cell.Str? then TextId(cell.s) else OtherId(cell.n);
      && |Enriched(update, rows, metadata)| == |rows| && id in metadata
      && Enriched(update, rows, metadata)[i]
         == if exists j :: i < j < |rows| && rows[j].cells[OperationId] == cell then rows[i] else update(rows[i], metadata[id])
  {
    assert KeyOf(rows[i]) in Keys(rows);
    assert forall j :: 0 <= j < |rows| ==> HasKey(rows[j]);
  }
}
