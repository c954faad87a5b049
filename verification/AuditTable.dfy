/** The audit table as the code handles it: writers that append in place and the batched verification loop,
    each tied to the functions of `AuditChain` and `AuditRuns`. */
module AuditTable {
  import opened Options
  import opened JsonText
  import opened AuditChain
  import opened AuditRuns

  class ChainVerificationResult {
    var ok: bool
    var entriesChecked: nat
    var violations: seq<Violation>

    constructor ()
      ensures ok && entriesChecked == 0 && violations == []
    {
      ok, entriesChecked, violations := true, 0, [];
    }

    method AddViolation(entryId: nat, reason: Reason)
      modifies this`ok, this`violations
      ensures !ok && violations == old(violations) + [Violation(entryId, reason)]
    {
      ok := false;
      violations := violations + [Violation(entryId, reason)];
    }

    ghost predicate Consistent()
      reads this
    {
      ok <==> violations == []
    }

    /** The body of the inner loop: both checks of one row. */
    method Check(env: Env, row: Row, expectedPrevHash: string)
      requires Consistent()
      modifies this
      ensures Consistent()
      ensures violations == old(violations) + CheckRow(env, row, expectedPrevHash)
      ensures entriesChecked == old(entriesChecked) + 1
    {
      entriesChecked := entriesChecked + 1;
      if row.prevHash != expectedPrevHash {
        AddViolation(row.id, PrevMismatch(expectedPrevHash, row.prevHash));
      }
      var recomputed := env.digest(row.event, row.prevHash);
      if row.entryHash != recomputed {
        AddViolation(row.id, HashMismatch(row.entryHash, recomputed));
      }
    }

    /** The inner loop: one batch, starting from the stored hash before it. */
    method CheckBatch(env: Env, batch: seq<Row>, expectedPrevHash: string) returns (nextPrevHash: string)
      requires Consistent()
      modifies this
      ensures Consistent()
      ensures violations == old(violations) + Verify(env, batch, expectedPrevHash)
      ensures entriesChecked == old(entriesChecked) + |batch|
      ensures nextPrevHash == LastHash(batch, expectedPrevHash)
    {
      nextPrevHash := expectedPrevHash;
      for i := 0 to |batch|
        invariant Consistent()
        invariant violations == old(violations) + Verify(env, batch[..i], expectedPrevHash)
        invariant entriesChecked == old(entriesChecked) + i
        invariant nextPrevHash == LastHash(batch[..i], expectedPrevHash)
      {
        Check(env, batch[i], nextPrevHash);
        NextRow(env, batch, i, expectedPrevHash);
        // The stored hash, not the recomputed one: a bad entry must not taint its successors.
        nextPrevHash := batch[i].entryHash;
      }
      assert batch[..|batch|] == batch;
    }

    /** This result stands for a pass over the first `seen` rows. */
    ghost predicate Covers(env: Env, qs: seq<Row>, seen: nat)
      requires seen <= |qs|
      reads this
    {
      Consistent() && entriesChecked == seen && violations == Verify(env, qs[..seen], "")
    }

    /** The outer loop: slice after slice of `batchSize` rows, until a slice is empty. */
    method CheckInBatches(env: Env, qs: seq<Row>, batchSize: nat)
      requires Covers(env, qs, 0)
      modifies this
      ensures Covers(env, qs, if batchSize == 0 then 0 else |qs|)
    {
      var expectedPrevHash := "";
      var offset, seen := 0, 0;
      while true
        invariant seen == Min(offset, |qs|)
        invariant Covers(env, qs, seen)
        invariant expectedPrevHash == LastHash(qs[..seen], "")
        invariant batchSize == 0 ==> seen == 0
        decreases |qs| - offset
      {
        var next := Min(offset + batchSize, |qs|);
        if next == seen {
          break;
        }
        expectedPrevHash := CheckSlice(env, qs, seen, next, expectedPrevHash);
        offset, seen := offset + batchSize, next;
      }
    }

    /** One slice fetched and checked. */
    method CheckSlice(env: Env, qs: seq<Row>, seen: nat, next: nat, expectedPrevHash: string) returns (nextPrevHash: string)
      requires seen <= next <= |qs| && Covers(env, qs, seen)
      requires expectedPrevHash == LastHash(qs[..seen], "")
      modifies this
      ensures Covers(env, qs, next)
      ensures nextPrevHash == LastHash(qs[..next], "")
    {
      var batch := qs[seen..next];
      NextBatch(env, qs, seen, batch);
      nextPrevHash := CheckBatch(env, batch, expectedPrevHash);
    }
  }

  /** `event_detail or {}` for a dictionary or `None`. */
  function OrEmpty(detail: Value): Value {
    if detail == Null then Obj([]) else detail
  }

  class AuditLog {
    const env: Env
    var rows: seq<Row>   // in id order

    ghost predicate Valid()
      reads this
    {
      Increasing(rows)
    }

    constructor (env: Env)
      ensures this.env == env && rows == [] && Valid()
    {
      this.env := env;
      rows := [];
    }

    /** `save` of a new entry: hash what is in memory, then insert. The returned entry is the one in memory; the stored
        one holds what the columns make of the covered fields. */
    method Save(event: Event, prevHash: string, side: Side, gap: nat) returns (entry: Row)
      requires Valid()
      modifies this
      ensures Valid()
      ensures entry == Row(NextId(old(rows)) + gap, event, prevHash, env.digest(event, prevHash), side)
      ensures rows == old(rows) + [entry.(event := env.column(event))]
    {
      var id := 1 + gap;
      if |rows| > 0 {
        id := rows[|rows| - 1].id + 1 + gap;
      }
      entry := Row(id, event, prevHash, env.digest(event, prevHash), side);
      rows := rows + [entry.(event := env.column(event))];
    }

    /** `record_event`. `fails` says that the transaction raised; the exception is swallowed. */
    method RecordEvent(event: Event, side: Side, gap: nat, fails: bool) returns (entry: Option<Row>)
      requires Valid()
      modifies this
      ensures Valid()
      ensures
        var w := if fails then Failed else Record(event.(detail := OrEmpty(event.detail)), side, gap);
        rows == Step(env, old(rows), w)
      ensures entry.None? <==> fails
      ensures fails ==> rows == old(rows)
      ensures !fails ==> |rows| == |old(rows)| + 1 && rows[..|old(rows)|] == old(rows)
      ensures !fails ==>
        var written := event.(detail := if event.detail == Null then Obj([]) else event.detail);
        var prev := if old(rows) == [] then "" else old(rows)[|old(rows)| - 1].entryHash;
        && rows[|rows| - 1].event == env.column(written) && rows[|rows| - 1].side == side
        && rows[|rows| - 1].prevHash == prev && rows[|rows| - 1].entryHash == env.digest(written, prev)
        && entry == Some(rows[|rows| - 1].(event := written))
    {
      entry := None;
      if !fails {
        var prevHash := "";
        if |rows| > 0 {
          prevHash := rows[|rows| - 1].entryHash;
        }
        var saved := Save(event.(detail := OrEmpty(event.detail)), prevHash, side, gap);
        entry := Some(saved);
      }
    }

    /** The login signal handlers: an entry built without a link. */
    method WriteFromSignal(event: Event, side: Side, gap: nat, fails: bool)
      requires Valid()
      modifies this
      ensures Valid()
      ensures rows == Step(env, old(rows), if fails then Failed else Unlinked(event, side, gap))
      ensures fails ==> rows == old(rows)
      ensures !fails ==>
        && |rows| == |old(rows)| + 1 && rows[..|old(rows)|] == old(rows)
        && rows[|rows| - 1].event == env.column(event) && rows[|rows| - 1].side == side
        && rows[|rows| - 1].prevHash == "" && rows[|rows| - 1].entryHash == env.digest(event, "")
    {
      if !fails {
        var _ := Save(event, "", side, gap);
      }
    }

    /** `order_by("-timestamp").first()`, ties broken towards the row met first. */
    method NewestRow() returns (pick: nat)
      requires rows != []
      ensures pick < |rows| && forall k :: 0 <= k < |rows| ==> rows[k].side.timestamp <= rows[pick].side.timestamp
    {
      pick := 0;
      for i := 1 to |rows|
        invariant pick < i
        invariant forall k :: 0 <= k < i ==> rows[k].side.timestamp <= rows[pick].side.timestamp
      {
        if rows[i].side.timestamp > rows[pick].side.timestamp {
          pick := i;
        }
      }
    }

    /** The account views: an entry linked to the newest timestamp. */
    method WriteFromView(event: Event, side: Side, gap: nat, fails: bool) returns (ghost w: Write)
      requires Valid()
      modifies this
      ensures Valid()
      ensures fails ==> w == Failed
      ensures !fails ==> w.Newest? && w == Newest(event, side, gap, w.pick)
      ensures Legal(old(rows), w) && rows == Step(env, old(rows), w)
      ensures fails ==> rows == old(rows)
      ensures !fails ==>
        && |rows| == |old(rows)| + 1 && rows[..|old(rows)|] == old(rows)
        && rows[|rows| - 1].event == env.column(event) && rows[|rows| - 1].side == side
        && rows[|rows| - 1].entryHash == env.digest(event, rows[|rows| - 1].prevHash)
        && (old(rows) == [] ==> rows[|rows| - 1].prevHash == "")
        && (old(rows) != [] ==> w.pick < |old(rows)| && rows[|rows| - 1].prevHash == old(rows)[w.pick].entryHash
                                && forall k :: 0 <= k < |old(rows)| ==> old(rows)[k].side.timestamp <= old(rows)[w.pick].side.timestamp)
    {
      if fails {
        w := Failed;
      } else {
        var prevHash, pick := "", 0;
        if |rows| > 0 {
          pick := NewestRow();
          prevHash := rows[pick].entryHash;
        }
        w := Newest(event, side, gap, pick);
        var _ := Save(event, prevHash, side, gap);
      }
    }

    /** `verify_chain`: a pass over exactly the rows from the start id to the end id, both included, in log order. A
        negative batch size makes the slice raise, here a null result. A batch size of zero stops before the first row
        and reports an intact chain whatever the table holds. */
    method VerifyChain(startId: Option<int>, endId: Option<int>, batchSize: int)
      returns (result: ChainVerificationResult?, ghost window: seq<Row>)
      requires Valid()
      ensures result == null <==> batchSize < 0
      ensures result != null ==> fresh(result) && (result.ok <==> result.violations == [])
      ensures window == Window(rows, startId, endId) && Increasing(window)
      ensures forall r :: r in window
                     <==> r in rows && (startId.Some? ==> startId.value <= r.id) && (endId.Some? ==> r.id <= endId.value)
      ensures batchSize > 0 ==> result.violations == Verify(env, window, "") && result.entriesChecked == |window|
      ensures batchSize == 0 ==> result.violations == [] && result.entriesChecked == 0
    {
      window := Window(rows, startId, endId);
      WindowIff(rows, startId, endId);
      if batchSize < 0 {
        return null, window;
      }
      var qs := UpTo(From(rows, startId), endId);
      result := new ChainVerificationResult();
      result.CheckInBatches(env, qs, batchSize);
      assert qs[..|qs|] == qs;
    }
  }

  lemma NextRow(env: Env, batch: seq<Row>, i: nat, expected: string)
    requires i < |batch|
    ensures Verify(env, batch[..i + 1], expected)
         == Verify(env, batch[..i], expected) + CheckRow(env, batch[i], LastHash(batch[..i], expected))
    ensures LastHash(batch[..i + 1], expected) == batch[i].entryHash
  {
    VerifySnoc(env, batch[..i], batch[i], expected);
    assert batch[..i + 1] == batch[..i] + [batch[i]];
  }

  /** A pass over the first rows of a log, extended by the next stretch. */
  lemma {:induction false} NextBatch(env: Env, rows: seq<Row>, seen: nat, batch: seq<Row>)
    requires seen + |batch| <= |rows| && batch == rows[seen..seen + |batch|]
    ensures Verify(env, rows[..seen + |batch|], "") == Verify(env, rows[..seen], "") + Verify(env, batch, LastHash(rows[..seen], ""))
    ensures LastHash(rows[..seen + |batch|], "") == LastHash(batch, LastHash(rows[..seen], ""))
  {
    VerifyConcat(env, rows[..seen], batch, "");
    assert rows[..seen] + batch == rows[..seen + |batch|];
  }

  function Min(a: nat, b: nat): nat {
    if a < b then a else b
  }
}
