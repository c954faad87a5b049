/** The hash chain of the audit log as values: what a row's hash covers, what a verification pass reports,
    and what an accepted chain is worth. */
module AuditChain {
  import opened Options
  import opened JsonText

  type Digest = s: string | |s| == 64 witness seq(64, i => '0')

  /** What the chain depends on: the digest of an entry's covered fields and link, and what the database returns for
      the covered fields it was given.

      Contents are longer than digests, so some two contents always share one; a theorem that needs two digests to differ
      therefore ends in "or two rows of these very logs collide". Module `AuditDigest` puts SHA-256 over JSON text in the
      digest's place. */
  datatype Env = Env(digest: (Event, string) -> Digest, column: Event -> Event)

  /** The fields an entry's hash covers. */
  datatype Event = Event(
    eventType: string, outcome: string, actorId: Option<string>, actorIp: Option<string>,
    resourceType: string, resourceId: string, detail: Value)

  /** The fields no hash covers. */
  datatype Side = Side(
    timestamp: int, actorEmail: string, userAgent: string, beforeState: Value, afterState: Value,
    requestId: string, sessionId: string)

  datatype Row = Row(id: nat, event: Event, prevHash: string, entryHash: string, side: Side)

  // ---------- one verification pass ----------

  datatype Reason =
    | PrevMismatch(expected: string, stored: string)
    | HashMismatch(storedHash: string, recomputed: string)

  datatype Violation = Violation(entryId: nat, reason: Reason)

  /** The findings about one row, given the stored hash of the row before it. */
  function CheckRow(env: Env, row: Row, expected: string): seq<Violation> {
    LinkCheck(row, expected) + HashCheck(env, row)
  }

  function LinkCheck(row: Row, expected: string): seq<Violation> {
    if row.prevHash == expected then [] else [Violation(row.id, PrevMismatch(expected, row.prevHash))]
  }

  function HashCheck(env: Env, row: Row): seq<Violation> {
    var recomputed := env.digest(row.event, row.prevHash);
    if row.entryHash == recomputed then [] else [Violation(row.id, HashMismatch(row.entryHash, recomputed))]
  }

  function Verify(env: Env, rows: seq<Row>, expected: string): seq<Violation> {
    if rows == [] then []
    else CheckRow(env, rows[0], expected) + Verify(env, rows[1..], rows[0].entryHash)
  }

  /** The stored hash the row after `rows` is expected to carry. */
  function LastHash(rows: seq<Row>, start: string): string {
    if rows == [] then start else rows[|rows| - 1].entryHash
  }

  /** The stored hash that row `i` is expected to carry as its link. */
  function PrevOf(rows: seq<Row>, i: nat): string
    requires i <= |rows|
  {
    if i == 0 then "" else rows[i - 1].entryHash
  }

  ghost predicate Accepted(env: Env, rows: seq<Row>) {
    Verify(env, rows, "") == []
  }

  ghost predicate Sound(env: Env, rows: seq<Row>, i: nat)
    requires i < |rows|
  {
    rows[i].prevHash == PrevOf(rows, i) && rows[i].entryHash == env.digest(rows[i].event, rows[i].prevHash)
  }

  lemma {:induction false} VerifyConcat(env: Env, a: seq<Row>, b: seq<Row>, expected: string)
    ensures Verify(env, a + b, expected) == Verify(env, a, expected) + Verify(env, b, LastHash(a, expected))
  {
    if a == [] {
      assert a + b == b;
    } else {
      assert (a + b)[1..] == a[1..] + b;
      VerifyConcat(env, a[1..], b, a[0].entryHash);
      assert LastHash(a, expected) == LastHash(a[1..], a[0].entryHash);
    }
  }

  lemma VerifySnoc(env: Env, rows: seq<Row>, row: Row, expected: string)
    ensures Verify(env, rows + [row], expected)
         == Verify(env, rows, expected) + CheckRow(env, row, LastHash(rows, expected))
  {
    VerifyConcat(env, rows, [row], expected);
    assert Verify(env, [row], LastHash(rows, expected)) == CheckRow(env, row, LastHash(rows, expected)) + [];
  }

  /** A pass cut in two at position `i`. */
  lemma VerifyCut(env: Env, rows: seq<Row>, i: nat)
    requires i <= |rows|
    ensures Verify(env, rows, "") == Verify(env, rows[..i], "") + Verify(env, rows[i..], PrevOf(rows, i))
  {
    assert rows == rows[..i] + rows[i..];
    VerifyConcat(env, rows[..i], rows[i..], "");
  }

  /** Every row of an accepted log carries its predecessor's stored hash and its own recomputed one. */
  lemma AcceptedRow(env: Env, rows: seq<Row>, i: nat)
    requires Accepted(env, rows) && i < |rows|
    ensures Sound(env, rows, i)
  {
    VerifyCut(env, rows, i);
  }

  ghost predicate AllSound(env: Env, rows: seq<Row>) {
    forall i :: 0 <= i < |rows| ==> Sound(env, rows, i)
  }

  lemma AcceptedSound(env: Env, rows: seq<Row>)
    requires Accepted(env, rows)
    ensures AllSound(env, rows)
  {
    forall i | 0 <= i < |rows|
      ensures Sound(env, rows, i)
    {
      AcceptedRow(env, rows, i);
    }
  }

  /** A log in which every row does is accepted. */
  lemma {:induction false} SoundAccepted(env: Env, rows: seq<Row>)
    requires AllSound(env, rows)
    ensures Accepted(env, rows)
  {
    if rows != [] {
      var n := |rows| - 1;
      var front := rows[..n];
      forall i | 0 <= i < n
        ensures Sound(env, front, i)
      {
        assert Sound(env, rows, i);
      }
      SoundAccepted(env, front);
      assert rows == front + [rows[n]];
      assert Sound(env, rows, n);
      VerifySnoc(env, front, rows[n], "");
    }
  }

  /** Stopping a pass early never invents a finding. */
  lemma AcceptedPrefix(env: Env, rows: seq<Row>, n: nat)
    requires n <= |rows| && Accepted(env, rows)
    ensures Accepted(env, rows[..n])
  {
    VerifyCut(env, rows, n);
  }

  // ---------- binding ----------

  /** Two different contents with one digest. */
  ghost predicate Collide(env: Env, a: Row, b: Row) {
    (a.event != b.event || a.prevHash != b.prevHash) && env.digest(a.event, a.prevHash) == env.digest(b.event, b.prevHash)
  }

  /** Some row of one log collides with some row of the other. */
  ghost predicate Clash(env: Env, a: seq<Row>, b: seq<Row>) {
    exists i, j :: 0 <= i < |a| && 0 <= j < |b| && Collide(env, a[i], b[j])
  }

  ghost predicate SameCovered(a: seq<Row>, b: seq<Row>) {
    |a| == |b| && forall i :: 0 <= i < |a| ==> SameRow(a[i], b[i])
  }

  /** The two rows differ at most in their ids and in fields no hash covers. */
  ghost predicate SameRow(a: Row, b: Row) {
    a.event == b.event && a.prevHash == b.prevHash && a.entryHash == b.entryHash
  }

  lemma {:induction false} HashBindsBefore(env: Env, a: seq<Row>, m: nat, b: seq<Row>, n: nat)
    requires AllSound(env, a) && AllSound(env, b) && m <= |a| && n <= |b|
    requires PrevOf(a, m) == PrevOf(b, n)
    ensures (m == n && forall i :: 0 <= i < m ==> SameRow(a[i], b[i])) || Clash(env, a, b)
  {
    if m > 0 {
      assert Sound(env, a, m - 1);
    }
    if n > 0 {
      assert Sound(env, b, n - 1);
    }
    if m > 0 && n > 0 && !Clash(env, a, b) {
      assert !Collide(env, a[m - 1], b[n - 1]);
      HashBindsBefore(env, a, m - 1, b, n - 1);
    }
  }

  /** The last hash of an accepted log pins the length of the log and every covered field in it. */
  lemma LastHashBinds(env: Env, a: seq<Row>, b: seq<Row>)
    requires Accepted(env, a) && Accepted(env, b)
    requires LastHash(a, "") == LastHash(b, "")
    ensures SameCovered(a, b) || Clash(env, a, b)
  {
    AcceptedSound(env, a);
    AcceptedSound(env, b);
    HashBindsBefore(env, a, |a|, b, |b|);
  }

  /** No rewriting of a log that keeps its last hash goes unreported. */
  lemma RewritingIsReported(env: Env, genuine: seq<Row>, rewritten: seq<Row>)
    requires Accepted(env, genuine)
    requires LastHash(genuine, "") == LastHash(rewritten, "")
    requires !SameCovered(genuine, rewritten)
    ensures Verify(env, rewritten, "") != [] || Clash(env, genuine, rewritten)
  {
    if Accepted(env, rewritten) {
      LastHashBinds(env, genuine, rewritten);
    }
  }

  /** No two rows of an accepted log store the same hash. */
  lemma HashesDistinct(env: Env, rows: seq<Row>, i: nat, j: nat)
    requires Accepted(env, rows) && i < j < |rows|
    ensures rows[i].entryHash != rows[j].entryHash || Clash(env, rows, rows)
  {
    if rows[i].entryHash == rows[j].entryHash {
      AcceptedSound(env, rows);
      HashBindsBefore(env, rows, i + 1, rows, j + 1);
    }
  }

  // ---------- localisation ----------

  /** Rows that were fine behind one hash, placed behind another: at most their first link breaks. */
  lemma Relink(env: Env, rows: seq<Row>, i: nat, expected: string, other: string)
    requires i <= |rows| && Verify(env, rows[i..], expected) == []
    ensures Verify(env, rows[i..], other) == if i < |rows| then LinkCheck(rows[i], other) else []
  {
    if i < |rows| {
    }
  }

  /** Replacing one row of an accepted log: the findings are about that row and the link after it, no other. */
  lemma ReplaceRow(env: Env, rows: seq<Row>, i: nat, row: Row)
    requires Accepted(env, rows) && i < |rows|
    ensures Verify(env, rows[i := row], "")
         == CheckRow(env, row, PrevOf(rows, i)) + (if i + 1 < |rows| then LinkCheck(rows[i + 1], row.entryHash) else [])
  {
    var edited := rows[i := row];
    VerifyCut(env, rows, i + 1);
    Relink(env, rows, i + 1, rows[i].entryHash, row.entryHash);
    VerifyCut(env, edited, i);
    assert edited[..i] == rows[..i] && edited[i + 1..] == rows[i + 1..];
    AcceptedPrefix(env, rows, i);
  }

  /** Editing covered fields in place is reported exactly once, at the edited entry. */
  lemma EditedFieldsReported(env: Env, rows: seq<Row>, i: nat, event: Event)
    requires Accepted(env, rows) && i < |rows| && event != rows[i].event
    ensures
      var edited := rows[i].(event := event);
      || Collide(env, rows[i], edited)
      || Verify(env, rows[i := edited], "")
           == [Violation(rows[i].id, HashMismatch(rows[i].entryHash, env.digest(event, rows[i].prevHash)))]
  {
    var edited := rows[i].(event := event);
    ReplaceRow(env, rows, i, edited);
    AcceptedLinks(env, rows, i);
  }

  /** What an accepted log says about row `i` and the link that follows it. */
  lemma AcceptedLinks(env: Env, rows: seq<Row>, i: nat)
    requires Accepted(env, rows) && i < |rows|
    ensures Sound(env, rows, i)
    ensures i + 1 < |rows| ==> rows[i + 1].prevHash == rows[i].entryHash
  {
    AcceptedRow(env, rows, i);
    if i + 1 < |rows| {
      AcceptedRow(env, rows, i + 1);
    }
  }

  /** Overwriting a stored hash is reported at that entry and, when there is one, at its successor. */
  lemma EditedHashReported(env: Env, rows: seq<Row>, i: nat, hash: string)
    requires Accepted(env, rows) && i < |rows| && hash != rows[i].entryHash
    ensures
      var edited := rows[i].(entryHash := hash);
      Verify(env, rows[i := edited], "")
        == [Violation(rows[i].id, HashMismatch(hash, rows[i].entryHash))]
         + (if i + 1 < |rows| then [Violation(rows[i + 1].id, PrevMismatch(hash, rows[i].entryHash))] else [])
  {
    ReplaceRow(env, rows, i, rows[i].(entryHash := hash));
    AcceptedLinks(env, rows, i);
  }

  /** Overwriting a link is reported twice, both times at that entry. */
  lemma EditedLinkReported(env: Env, rows: seq<Row>, i: nat, prevHash: string)
    requires Accepted(env, rows) && i < |rows| && prevHash != rows[i].prevHash
    ensures
      var edited := rows[i].(prevHash := prevHash);
      || Collide(env, rows[i], edited)
      || Verify(env, rows[i := edited], "")
           == [Violation(rows[i].id, PrevMismatch(rows[i].prevHash, prevHash)),
               Violation(rows[i].id, HashMismatch(rows[i].entryHash, env.digest(rows[i].event, prevHash)))]
  {
    var edited := rows[i].(prevHash := prevHash);
    ReplaceRow(env, rows, i, edited);
    AcceptedLinks(env, rows, i);
  }

  /** An entry rewritten together with its own hash is reported at its successor only; a rewritten last
      entry is not reported at all. */
  lemma RehashedEntryReported(env: Env, rows: seq<Row>, i: nat, event: Event)
    requires Accepted(env, rows) && i < |rows| && event != rows[i].event
    ensures
      var hash := env.digest(event, rows[i].prevHash);
      var edited := rows[i].(event := event, entryHash := hash);
      || Collide(env, rows[i], edited)
      || Verify(env, rows[i := edited], "")
           == if i + 1 < |rows| then [Violation(rows[i + 1].id, PrevMismatch(hash, rows[i].entryHash))] else []
  {
    var hash := env.digest(event, rows[i].prevHash);
    var edited := rows[i].(event := event, entryHash := hash);
    ReplaceRow(env, rows, i, edited);
    AcceptedLinks(env, rows, i);
  }

  /** Cutting entries out of the middle or the front is reported exactly once, at the first entry kept
      after the gap; cutting off the end is not reported. */
  lemma RemovedEntriesReported(env: Env, rows: seq<Row>, i: nat, j: nat)
    requires Accepted(env, rows) && i < j <= |rows|
    ensures
      || Clash(env, rows, rows)
      || Verify(env, rows[..i] + rows[j..], "")
           == if j < |rows| then [Violation(rows[j].id, PrevMismatch(PrevOf(rows, i), rows[j].prevHash))] else []
  {
    VerifyConcat(env, rows[..i], rows[j..], "");
    AcceptedPrefix(env, rows, i);
    VerifyCut(env, rows, j);
    hide Verify;
    Relink(env, rows, j, PrevOf(rows, j), PrevOf(rows, i));
    if j < |rows| {
      PredecessorsDiffer(env, rows, i, j);
    }
  }

  lemma PredecessorsDiffer(env: Env, rows: seq<Row>, i: nat, j: nat)
    requires Accepted(env, rows) && i < j < |rows|
    ensures rows[j].prevHash != PrevOf(rows, i) || Clash(env, rows, rows)
  {
    AcceptedLinks(env, rows, j - 1);
    if i > 0 {
      HashesDistinct(env, rows, i - 1, j - 1);
    }
  }

  /** Fields outside the hash can be rewritten at will: the verdict does not see them. */
  lemma {:induction false} SideFieldsUnseen(env: Env, a: seq<Row>, b: seq<Row>, expected: string)
    requires |a| == |b|
    requires forall i :: 0 <= i < |a| ==> a[i].(side := b[i].side) == b[i]
    ensures Verify(env, a, expected) == Verify(env, b, expected)
  {
    if a != [] {
      assert a[0].(side := b[0].side) == b[0];
      SideFieldsUnseen(env, a[1..], b[1..], a[0].entryHash);
    }
  }
}
