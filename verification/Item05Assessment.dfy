/** The coverage check of the per-block assessment: every block assessed in every dimension exactly once. */
module Item05Assessment {
  import opened Counting

  datatype Record = Record(block: string, dimension: string, evidenceState: string, priority: string,
                           dependencyClass: string, claimScope: string, gateScope: string, authority: string,
                           civicosPath: string)

  datatype Evidence = Evidence(schemaVersion: int, blocks: seq<string>, dimensions: seq<string>, records: seq<Record>)

  /** The fixed vocabularies of the check and the files it may find. */
  datatype Rules = Rules(blocks: set<string>, dimensions: set<string>, states: set<string>, priorities: set<string>,
                         dependencies: set<string>, scopes: set<string>, authority: string, exists_: string -> bool)

  /** The assertions on one record alone. */
  predicate WellFormed(rules: Rules, r: Record) {
    && r.block in rules.blocks && r.dimension in rules.dimensions
    && r.evidenceState in rules.states && r.priority in rules.priorities && r.dependencyClass in rules.dependencies
    && r.claimScope in rules.scopes && r.gateScope in rules.scopes
    && rules.authority <= r.authority && rules.exists_(r.civicosPath)
  }

  function Cell(r: Record): (string, string) {
    (r.block, r.dimension)
  }

  function Cells(records: seq<Record>): seq<(string, string)> {
    seq(|records|, i requires 0 <= i < |records| => Cell(records[i]))
  }

  /** Exactly one record assesses a block in a dimension. */
  ghost predicate AssessedOnce(records: seq<Record>, block: string, dimension: string) {
    exists i :: 0 <= i < |records| && Cell(records[i]) == (block, dimension)
             && forall j :: 0 <= j < |records| && Cell(records[j]) == (block, dimension) ==> j == i
  }

  ghost predicate Covered(rules: Rules, records: seq<Record>) {
    forall b, d :: b in rules.blocks && d in rules.dimensions ==> AssessedOnce(records, b, d)
  }

  ghost predicate Accepted(rules: Rules, e: Evidence) {
    && e.schemaVersion == 1 && SetOf(e.blocks) == rules.blocks && SetOf(e.dimensions) == rules.dimensions
    && (forall i :: 0 <= i < |e.records| ==> WellFormed(rules, e.records[i]))
    && Covered(rules, e.records)
  }

  // ---------- counting ----------

  function Product(blocks: set<string>, dimensions: set<string>): set<(string, string)> {
    set b, d | b in blocks && d in dimensions :: (b, d)
  }

  lemma {:induction false} RowSize(b: string, dimensions: set<string>)
    ensures |Product({b}, dimensions)| == |dimensions|
    decreases |dimensions|
  {
    if dimensions == {} {
      assert Product({b}, dimensions) == {};
    } else {
      var d :| d in dimensions;
      RowSize(b, dimensions - {d});
      assert Product({b}, dimensions) == Product({b}, dimensions - {d}) + {(b, d)};
    }
  }

  lemma ProductSplit(blocks: set<string>, b: string, dimensions: set<string>)
    requires b in blocks
    ensures |Product(blocks, dimensions)| == |Product(blocks - {b}, dimensions)| + |dimensions|
  {
    RowSize(b, dimensions);
    assert Product(blocks, dimensions) == Product(blocks - {b}, dimensions) + Product({b}, dimensions);
    assert Product(blocks - {b}, dimensions) !! Product({b}, dimensions);
  }

  lemma {:induction false} ProductSize(blocks: set<string>, dimensions: set<string>)
    ensures |Product(blocks, dimensions)| == |blocks| * |dimensions|
    decreases |blocks|
  {
    if blocks == {} {
      assert Product(blocks, dimensions) == {};
    } else {
      hide Product;
      var b :| b in blocks;
      ProductSplit(blocks, b, dimensions);
      ProductSize(blocks - {b}, dimensions);
      assert |blocks| == |blocks - {b}| + 1;
    }
  }

  /** Records inside the table that do not repeat a cell fill it exactly when there are as many as it has cells. */
  lemma FullTableIff(rules: Rules, records: seq<Record>)
    requires forall i :: 0 <= i < |records| ==> WellFormed(rules, records[i])
    ensures |records| == |rules.blocks| * |rules.dimensions| && Distinct(Cells(records)) <==> Covered(rules, records)
  {
    var cells, table := Cells(records), Product(rules.blocks, rules.dimensions);
    ProductSize(rules.blocks, rules.dimensions);
    SetSizeIff(cells);
    assert SetOf(cells) <= table;
    if |records| == |table| && Distinct(cells) {
      FullSubset(SetOf(cells), table);
      forall b, d | b in rules.blocks && d in rules.dimensions
        ensures AssessedOnce(records, b, d)
      {
        assert (b, d) in SetOf(cells);
        var i :| 0 <= i < |cells| && cells[i] == (b, d);
        forall j | 0 <= j < |records| && Cell(records[j]) == (b, d)
          ensures j == i
        {
          assert cells[j] == cells[i];
        }
      }
    }
    if Covered(rules, records) {
      CoveredDistinct(rules, records);
      assert table <= SetOf(cells) by {
        forall c | c in table
          ensures c in SetOf(cells)
        {
          assert AssessedOnce(records, c.0, c.1);
          var i :| 0 <= i < |records| && Cell(records[i]) == (c.0, c.1);
          assert cells[i] == c;
        }
      }
      assert SetOf(cells) == table;
    }
  }

  lemma CoveredDistinct(rules: Rules, records: seq<Record>)
    requires forall i :: 0 <= i < |records| ==> WellFormed(rules, records[i])
    requires Covered(rules, records)
    ensures Distinct(Cells(records))
  {
    var cells := Cells(records);
    forall i, j | 0 <= i < j < |cells|
      ensures cells[i] != cells[j]
    {
      assert WellFormed(rules, records[i]);
      assert AssessedOnce(records, records[i].block, records[i].dimension);
      var k :| 0 <= k < |records| && Cell(records[k]) == Cell(records[i])
            && forall m :: 0 <= m < |records| && Cell(records[m]) == Cell(records[i]) ==> m == k;
      assert i == k;
      assert Cell(records[j]) == Cell(records[i]) ==> j == k;
    }
  }

  // ---------- the check ----------

  /** Acceptance, field by field. */
  lemma AcceptedSays(rules: Rules, e: Evidence)
    ensures Accepted(rules, e) <==>
      && e.schemaVersion == 1
      && (forall b :: b in e.blocks <==> b in rules.blocks) && (forall d :: d in e.dimensions <==> d in rules.dimensions)
      && (forall i :: 0 <= i < |e.records| ==>
            var r := e.records[i];
            && r.block in rules.blocks && r.dimension in rules.dimensions && r.evidenceState in rules.states
            && r.priority in rules.priorities && r.dependencyClass in rules.dependencies
            && r.claimScope in rules.scopes && r.gateScope in rules.scopes
            && |rules.authority| <= |r.authority| && r.authority[..|rules.authority|] == rules.authority
            && rules.exists_(r.civicosPath))
      && (forall b, d :: b in rules.blocks && d in rules.dimensions ==>
            exists i :: && 0 <= i < |e.records| && e.records[i].block == b && e.records[i].dimension == d
                        && forall j :: 0 <= j < |e.records| && j != i ==> e.records[j].block != b || e.records[j].dimension != d)
  {
    hide WellFormed, AssessedOnce;
    forall i | 0 <= i < |e.records|
      ensures WellFormed(rules, e.records[i]) <==>
        var r := e.records[i];
        && r.block in rules.blocks && r.dimension in rules.dimensions && r.evidenceState in rules.states
        && r.priority in rules.priorities && r.dependencyClass in rules.dependencies
        && r.claimScope in rules.scopes && r.gateScope in rules.scopes
        && |rules.authority| <= |r.authority| && r.authority[..|rules.authority|] == rules.authority
        && rules.exists_(r.civicosPath)
    {
      WellFormedSays(rules, e.records[i]);
    }
    forall b, d
      ensures AssessedOnce(e.records, b, d) <==>
        exists i :: && 0 <= i < |e.records| && e.records[i].block == b && e.records[i].dimension == d
                    && forall j :: 0 <= j < |e.records| && j != i ==> e.records[j].block != b || e.records[j].dimension != d
    {
      OnceSays(e.records, b, d);
    }
  }

  lemma WellFormedSays(rules: Rules, r: Record)
    ensures WellFormed(rules, r) <==>
      && r.block in rules.blocks && r.dimension in rules.dimensions && r.evidenceState in rules.states
      && r.priority in rules.priorities && r.dependencyClass in rules.dependencies
      && r.claimScope in rules.scopes && r.gateScope in rules.scopes
      && |rules.authority| <= |r.authority| && r.authority[..|rules.authority|] == rules.authority
      && rules.exists_(r.civicosPath)
  {
  }

  lemma OnceSays(records: seq<Record>, b: string, d: string)
    ensures AssessedOnce(records, b, d) <==>
      exists i :: && 0 <= i < |records| && records[i].block == b && records[i].dimension == d
                  && forall j :: 0 <= j < |records| && j != i ==> records[j].block != b || records[j].dimension != d
  {
    if AssessedOnce(records, b, d) {
      var i :| 0 <= i < |records| && Cell(records[i]) == (b, d)
            && forall j :: 0 <= j < |records| && Cell(records[j]) == (b, d) ==> j == i;
      assert forall j :: 0 <= j < |records| && j != i ==> Cell(records[j]) != (b, d);
    }
    if i :| && 0 <= i < |records| && records[i].block == b && records[i].dimension == d
            && forall j :: 0 <= j < |records| && j != i ==> records[j].block != b || records[j].dimension != d {
      assert Cell(records[i]) == (b, d);
    }
  }

  /** The record loop of `validate` and the assertions before it: it passes exactly when every block is assessed in
      every dimension once, by well-formed records, and by no others. */
  method Validate(rules: Rules, e: Evidence) returns (ok: bool)
    ensures ok <==> Accepted(rules, e)
  {
    if e.schemaVersion != 1 || SetOf(e.blocks) != rules.blocks || SetOf(e.dimensions) != rules.dimensions {
      return false;
    }
    if |e.records| != |rules.blocks| * |rules.dimensions| {
      if forall i :: 0 <= i < |e.records| ==> WellFormed(rules, e.records[i]) {
        FullTableIff(rules, e.records);
      }
      return false;
    }
    var seen: set<(string, string)> := {};
    for i := 0 to |e.records|
      invariant seen == SetOf(Cells(e.records)[..i])
      invariant Distinct(Cells(e.records)[..i])
      invariant forall k :: 0 <= k < i ==> WellFormed(rules, e.records[k])
    {
      var record := e.records[i];
      if !WellFormed(rules, record) {
        return false;
      }
      if Cell(record) in seen {
        RepeatNotCovered(rules, e.records, i);
        return false;
      }
      assert Cells(e.records)[..i + 1] == Cells(e.records)[..i] + [Cell(record)];
      seen := seen + {Cell(record)};
    }
    assert Cells(e.records)[..|e.records|] == Cells(e.records);
    FullTableIff(rules, e.records);
    ok := true;
  }

  lemma RepeatNotCovered(rules: Rules, records: seq<Record>, i: nat)
    requires i < |records| && Cell(records[i]) in SetOf(Cells(records)[..i])
    ensures !((forall k :: 0 <= k < |records| ==> WellFormed(rules, records[k])) && Covered(rules, records))
  {
    var cells := Cells(records);
    var k :| 0 <= k < i && cells[..i][k] == cells[i];
    assert cells[k] == cells[i];
    if (forall k :: 0 <= k < |records| ==> WellFormed(rules, records[k])) && Covered(rules, records) {
      CoveredDistinct(rules, records);
      assert false;
    }
  }
}
