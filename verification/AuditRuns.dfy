/** Every way entries are written to the audit log, and the exact verdict on any interleaving of the writers. */
module AuditRuns {
  import opened Options
  import opened JsonText
  import opened AuditChain

  /** One attempt to add an entry. `gap` counts ids the database burned on failed inserts just before. */
  datatype Write =
    | Record(event: Event, side: Side, gap: nat)              // record_event: linked to the newest id
    | Unlinked(event: Event, side: Side, gap: nat)            // signal handlers and others: no link
    | Newest(event: Event, side: Side, gap: nat, pick: nat)   // account views and others: linked to a newest timestamp
    | Failed                                                  // raised, rolled back and swallowed

  /** `pick` is the row an ordering by falling timestamp puts first; ties may fall either way. */
  ghost predicate NewestByTime(rows: seq<Row>, pick: nat) {
    pick < |rows| && forall k :: 0 <= k < |rows| ==> rows[k].side.timestamp <= rows[pick].side.timestamp
  }

  ghost predicate Legal(rows: seq<Row>, w: Write) {
    w.Newest? && rows != [] ==> NewestByTime(rows, w.pick)
  }

  function PrevFor(rows: seq<Row>, w: Write): string
    requires !w.Failed?
  {
    match w
    case Record(_, _, _) => LastHash(rows, "")
    case Unlinked(_, _, _) => ""
    case Newest(_, _, _, pick) => if pick < |rows| then rows[pick].entryHash else ""
  }

  function NextId(rows: seq<Row>): nat {
    if rows == [] then 1 else rows[|rows| - 1].id + 1
  }

  /** The stored row: the hash is computed before the covered fields go through their columns. */
  function NewRow(env: Env, rows: seq<Row>, w: Write): Row
    requires !w.Failed?
  {
    var prev := PrevFor(rows, w);
    Row(NextId(rows) + w.gap, env.column(w.event), prev, env.digest(w.event, prev), w.side)
  }

  function Step(env: Env, rows: seq<Row>, w: Write): seq<Row> {
    if w.Failed? then rows else rows + [NewRow(env, rows, w)]
  }

  function Run(env: Env, ws: seq<Write>): seq<Row> {
    if ws == [] then [] else Step(env, Run(env, ws[..|ws| - 1]), ws[|ws| - 1])
  }

  // ---------- the verdict on a run ----------

  predicate EventKept(env: Env, w: Write) {
    w.Failed? || env.column(w.event) == w.event
  }

  /** What a full pass has to say about the entry `w` adds behind `rows`. */
  function Finding(env: Env, rows: seq<Row>, w: Write): seq<Violation> {
    if w.Failed? then []
    else
      var prev, id := PrevFor(rows, w), NextId(rows) + w.gap;
      (if prev == LastHash(rows, "") then [] else [Violation(id, PrevMismatch(LastHash(rows, ""), prev))])
      + (if EventKept(env, w) then []
         else [Violation(id, HashMismatch(env.digest(w.event, prev), env.digest(env.column(w.event), prev)))])
  }

  function Findings(env: Env, ws: seq<Write>): seq<Violation> {
    if ws == [] then []
    else Findings(env, ws[..|ws| - 1]) + Finding(env, Run(env, ws[..|ws| - 1]), ws[|ws| - 1])
  }

  /** The entry as written and as stored differ and still share a digest. */
  ghost predicate WriteCollides(env: Env, rows: seq<Row>, w: Write) {
    && !w.Failed?
    && !EventKept(env, w)
    && env.digest(w.event, PrevFor(rows, w)) == env.digest(env.column(w.event), PrevFor(rows, w))
  }

  ghost predicate SomeWriteCollides(env: Env, ws: seq<Write>) {
    exists k :: 0 <= k < |ws| && WriteCollides(env, Run(env, ws[..k]), ws[k])
  }

  lemma SomeWriteCollidesEarlier(env: Env, ws: seq<Write>, n: nat)
    requires n <= |ws| && SomeWriteCollides(env, ws[..n])
    ensures SomeWriteCollides(env, ws)
  {
    var k :| 0 <= k < n && WriteCollides(env, Run(env, ws[..n][..k]), ws[..n][k]);
    assert ws[..n][..k] == ws[..k];
  }

  /** A pass over any interleaving of the writers reports exactly the listed findings, entry by entry. */
  lemma {:induction false} RunVerdict(env: Env, ws: seq<Write>)
    ensures Verify(env, Run(env, ws), "") == Findings(env, ws) || SomeWriteCollides(env, ws)
  {
    if ws != [] {
      var n := |ws| - 1;
      var rows, w := Run(env, ws[..n]), ws[n];
      RunVerdict(env, ws[..n]);
      if SomeWriteCollides(env, ws[..n]) {
        SomeWriteCollidesEarlier(env, ws, n);
      } else if !WriteCollides(env, rows, w) {
        StepVerdict(env, rows, w);
      }
    }
  }

  lemma StepVerdict(env: Env, rows: seq<Row>, w: Write)
    requires !WriteCollides(env, rows, w)
    ensures Verify(env, Step(env, rows, w), "") == Verify(env, rows, "") + Finding(env, rows, w)
  {
    hide Verify;
    if !w.Failed? {
      VerifySnoc(env, rows, NewRow(env, rows, w), "");
    }
  }

  // ---------- record_event alone ----------

  ghost predicate OnlyRecord(ws: seq<Write>) {
    forall k :: 0 <= k < |ws| ==> ws[k].Record? || ws[k].Failed?
  }

  ghost predicate EventsKept(env: Env, ws: seq<Write>) {
    forall k :: 0 <= k < |ws| ==> EventKept(env, ws[k])
  }

  lemma {:induction false} RecordFindings(env: Env, ws: seq<Write>)
    requires OnlyRecord(ws)
    ensures Findings(env, ws) == [] <==> EventsKept(env, ws)
  {
    if ws != [] {
      var n := |ws| - 1;
      RecordFindings(env, ws[..n]);
      assert EventsKept(env, ws) <==> EventsKept(env, ws[..n]) && EventKept(env, ws[n]);
    }
  }

  /** A log written only by `record_event`, with failures and id gaps anywhere, is accepted exactly when
      every covered field comes back from the database as it was written. */
  lemma {:induction false} RecordedRunAcceptedIff(env: Env, ws: seq<Write>)
    requires OnlyRecord(ws) && !SomeWriteCollides(env, ws)
    ensures Accepted(env, Run(env, ws)) <==> EventsKept(env, ws)
  {
    RunVerdict(env, ws);
    RecordFindings(env, ws);
  }

  // ---------- record_event and the signal handlers ----------

  /** The writes that added an entry, in order. */
  function Writers(ws: seq<Write>): seq<Write> {
    if ws == [] then []
    else Writers(ws[..|ws| - 1]) + (if ws[|ws| - 1].Failed? then [] else [ws[|ws| - 1]])
  }

  /** One missing-link finding for each of the first `n` entries that an unlinking writer added behind another. */
  function UnlinkedFindings(rows: seq<Row>, writers: seq<Write>, n: nat): seq<Violation>
    requires n <= |rows| == |writers|
  {
    if n == 0 then []
    else
      UnlinkedFindings(rows, writers, n - 1)
      + (if n > 1 && writers[n - 1].Unlinked? then [Violation(rows[n - 1].id, PrevMismatch(rows[n - 2].entryHash, ""))] else [])
  }

  lemma {:induction false} UnlinkedFindingsGrow(rows: seq<Row>, writers: seq<Write>, n: nat, row: Row, w: Write)
    requires n <= |rows| == |writers|
    ensures UnlinkedFindings(rows + [row], writers + [w], n) == UnlinkedFindings(rows, writers, n)
  {
    if n > 0 {
      UnlinkedFindingsGrow(rows, writers, n - 1, row, w);
    }
  }

  lemma {:induction false} RunHashesNotEmpty(env: Env, ws: seq<Write>)
    ensures Run(env, ws) != [] ==> LastHash(Run(env, ws), "") != ""
  {
    if ws != [] {
      RunHashesNotEmpty(env, ws[..|ws| - 1]);
    }
  }

  lemma UnlinkedFindingsStep(rows: seq<Row>, writers: seq<Write>, row: Row, w: Write)
    requires |rows| == |writers|
    ensures UnlinkedFindings(rows + [row], writers + [w], |rows| + 1)
         == UnlinkedFindings(rows, writers, |rows|)
          + (if rows != [] && w.Unlinked? then [Violation(row.id, PrevMismatch(LastHash(rows, ""), ""))] else [])
  {
    UnlinkedFindingsGrow(rows, writers, |rows|, row, w);
  }

  lemma MixedStep(env: Env, rows: seq<Row>, writers: seq<Write>, w: Write)
    requires |rows| == |writers| && !w.Newest? && EventKept(env, w)
    requires rows != [] ==> LastHash(rows, "") != ""
    ensures
      var rows', writers' := Step(env, rows, w), writers + (if w.Failed? then [] else [w]);
      && |rows'| == |writers'|
      && UnlinkedFindings(rows', writers', |rows'|) == UnlinkedFindings(rows, writers, |rows|) + Finding(env, rows, w)
  {
    if w.Failed? {
      assert writers + [] == writers;
    } else {
      UnlinkedFindingsStep(rows, writers, NewRow(env, rows, w), w);
    }
  }

  lemma NoFindings()
    ensures UnlinkedFindings([], [], 0) == []
  {
  }

  lemma {:induction false} MixedFindings(env: Env, ws: seq<Write>)
    requires forall k :: 0 <= k < |ws| ==> !ws[k].Newest? && EventKept(env, ws[k])
    ensures |Run(env, ws)| == |Writers(ws)|
    ensures Findings(env, ws) == UnlinkedFindings(Run(env, ws), Writers(ws), |Run(env, ws)|)
  {
    hide Step, Finding, UnlinkedFindings, EventKept;
    if ws == [] {
      NoFindings();
    } else {
      var n := |ws| - 1;
      assert forall k :: 0 <= k < n ==> ws[..n][k] == ws[k];
      MixedFindings(env, ws[..n]);
      RunHashesNotEmpty(env, ws[..n]);
      MixedStep(env, Run(env, ws[..n]), Writers(ws[..n]), ws[n]);
    }
  }

  /** In any interleaving of `record_event` and the signal handlers, each entry of a signal handler that is
      not the first entry is reported exactly once, and no other entry is. */
  lemma MixedRunVerdict(env: Env, ws: seq<Write>)
    requires forall k :: 0 <= k < |ws| ==> !ws[k].Newest?
    requires EventsKept(env, ws)
    ensures |Run(env, ws)| == |Writers(ws)|
    ensures Verify(env, Run(env, ws), "") == UnlinkedFindings(Run(env, ws), Writers(ws), |Run(env, ws)|)
  {
    RunVerdict(env, ws);
    assert forall k :: 0 <= k < |ws| ==> EventKept(env, ws[k]);
    MixedFindings(env, ws);
    forall k | 0 <= k < |ws|
      ensures !WriteCollides(env, Run(env, ws[..k]), ws[k])
    {
      assert EventKept(env, ws[k]);
    }
  }

  // ---------- the account views ----------

  /** Behind an accepted log, an entry linked by newest timestamp is accepted exactly when the newest
      timestamp sits on the newest id. */
  lemma NewestWriterAcceptedIff(env: Env, rows: seq<Row>, w: Write)
    requires Accepted(env, rows) && rows != []
    requires w.Newest? && Legal(rows, w) && EventKept(env, w)
    ensures (Accepted(env, Step(env, rows, w)) <==> w.pick == |rows| - 1) || Clash(env, rows, rows)
  {
    StepVerdict(env, rows, w);
    if w.pick < |rows| - 1 {
      HashesDistinct(env, rows, w.pick, |rows| - 1);
    }
  }

  /** A clock that never stands still or runs back makes the two orders agree. */
  lemma RisingClockLinksNewest(rows: seq<Row>, w: Write)
    requires rows != [] && w.Newest? && Legal(rows, w)
    requires forall i, j :: 0 <= i < j < |rows| ==> rows[i].side.timestamp < rows[j].side.timestamp
    ensures PrevFor(rows, w) == LastHash(rows, "")
  {
    assert rows[|rows| - 1].side.timestamp <= rows[w.pick].side.timestamp;
  }

  // ---------- windows of ids ----------

  ghost predicate Increasing(rows: seq<Row>) {
    forall i, j :: 0 <= i < j < |rows| ==> rows[i].id < rows[j].id
  }

  lemma {:induction false} RunIncreasing(env: Env, ws: seq<Write>)
    ensures Increasing(Run(env, ws))
  {
    if ws != [] {
      RunIncreasing(env, ws[..|ws| - 1]);
    }
  }

  /** `qs.filter(id__gte=startId)` */
  function From(rows: seq<Row>, startId: Option<int>): seq<Row> {
    if startId.None? || rows == [] then rows
    else if startId.value <= rows[0].id then [rows[0]] + From(rows[1..], startId)
    else From(rows[1..], startId)
  }

  /** `qs.filter(id__lte=endId)` */
  function UpTo(rows: seq<Row>, endId: Option<int>): seq<Row> {
    if endId.None? || rows == [] then rows
    else if rows[0].id <= endId.value then [rows[0]] + UpTo(rows[1..], endId)
    else UpTo(rows[1..], endId)
  }

  function Window(rows: seq<Row>, startId: Option<int>, endId: Option<int>): seq<Row> {
    UpTo(From(rows, startId), endId)
  }

  lemma {:induction false} FromIff(rows: seq<Row>, startId: Option<int>, r: Row)
    ensures r in From(rows, startId) <==> r in rows && (startId.Some? ==> startId.value <= r.id)
  {
    if rows != [] {
      FromIff(rows[1..], startId, r);
      assert r in rows <==> r == rows[0] || r in rows[1..];
    }
  }

  lemma {:induction false} UpToIff(rows: seq<Row>, endId: Option<int>, r: Row)
    ensures r in UpTo(rows, endId) <==> r in rows && (endId.Some? ==> r.id <= endId.value)
  {
    if rows != [] {
      UpToIff(rows[1..], endId, r);
      assert r in rows <==> r == rows[0] || r in rows[1..];
    }
  }

  /** The window holds, in log order, exactly the rows from the start id to the end id, both included. */
  lemma WindowIff(rows: seq<Row>, startId: Option<int>, endId: Option<int>)
    requires Increasing(rows)
    ensures Increasing(Window(rows, startId, endId))
    ensures forall r :: r in Window(rows, startId, endId)
                   <==> r in rows && (startId.Some? ==> startId.value <= r.id) && (endId.Some? ==> r.id <= endId.value)
  {
    var lo, hi := WindowIsStretch(rows, startId, endId);
    forall r
      ensures r in Window(rows, startId, endId)
         <==> r in rows && (startId.Some? ==> startId.value <= r.id) && (endId.Some? ==> r.id <= endId.value)
    {
      FromIff(rows, startId, r);
      UpToIff(From(rows, startId), endId, r);
    }
  }

  lemma {:induction false} FromAll(rows: seq<Row>, startId: Option<int>)
    requires startId.Some? ==> forall k :: 0 <= k < |rows| ==> startId.value <= rows[k].id
    ensures From(rows, startId) == rows
  {
    if startId.Some? && rows != [] {
      FromAll(rows[1..], startId);
    }
  }

  /** With rising ids a lower bound cuts off a front part of the log. */
  lemma {:induction false} FromIsSuffix(rows: seq<Row>, startId: Option<int>) returns (lo: nat)
    requires Increasing(rows)
    ensures lo <= |rows| && From(rows, startId) == rows[lo..]
    ensures startId.None? ==> lo == 0
  {
    if startId.None? || rows == [] {
      lo := 0;
    } else if startId.value <= rows[0].id {
      FromAll(rows, startId);
      lo := 0;
    } else {
      lo := FromIsSuffix(rows[1..], startId);
      lo := lo + 1;
      assert rows[1..][lo - 1..] == rows[lo..];
    }
  }

  lemma {:induction false} UpToNone(rows: seq<Row>, endId: int)
    requires forall k :: 0 <= k < |rows| ==> endId < rows[k].id
    ensures UpTo(rows, Some(endId)) == []
  {
    if rows != [] {
      UpToNone(rows[1..], endId);
    }
  }

  /** With rising ids an upper bound cuts off an end part of the log. */
  lemma {:induction false} UpToIsPrefix(rows: seq<Row>, endId: Option<int>) returns (hi: nat)
    requires Increasing(rows)
    ensures hi <= |rows| && UpTo(rows, endId) == rows[..hi]
  {
    if endId.None? || rows == [] {
      hi := |rows|;
    } else if rows[0].id <= endId.value {
      hi := UpToIsPrefix(rows[1..], endId);
      hi := hi + 1;
      assert [rows[0]] + rows[1..][..hi - 1] == rows[..hi];
    } else {
      UpToNone(rows, endId.value);
      hi := 0;
    }
  }

  /** A window is a contiguous stretch of the log; without a start it is a prefix. */
  lemma WindowIsStretch(rows: seq<Row>, startId: Option<int>, endId: Option<int>) returns (lo: nat, hi: nat)
    requires Increasing(rows)
    ensures lo <= hi <= |rows| && Window(rows, startId, endId) == rows[lo..hi]
    ensures startId.None? ==> lo == 0
  {
    lo := FromIsSuffix(rows, startId);
    hi := UpToIsPrefix(rows[lo..], endId);
    assert rows[lo..][..hi] == rows[lo..lo + hi];
    hi := lo + hi;
  }

  /** The verdict on any window of an accepted log: nothing when the window is empty or starts with the first
      entry of the log, and otherwise one false alarm, at the first entry of the window. */
  lemma WindowVerdict(env: Env, rows: seq<Row>, startId: Option<int>, endId: Option<int>)
    requires Increasing(rows) && Accepted(env, rows)
    ensures
      var window := Window(rows, startId, endId);
      Verify(env, window, "")
        == if window == [] || window[0] == rows[0] then []
           else [Violation(window[0].id, PrevMismatch("", window[0].prevHash))]
  {
    hide Window;
    var lo, hi := WindowIsStretch(rows, startId, endId);
    StretchVerdict(env, rows, lo, hi);
    assert lo > 0 && lo < hi ==> rows[0].id < rows[lo].id;
  }

  /** A stretch of an accepted log is clean but for its first link, which is fine only at the front of the log. */
  lemma StretchVerdict(env: Env, rows: seq<Row>, lo: nat, hi: nat)
    requires Accepted(env, rows) && lo <= hi <= |rows|
    ensures Verify(env, rows[lo..hi], "")
         == if lo == hi || lo == 0 then [] else [Violation(rows[lo].id, PrevMismatch("", rows[lo].prevHash))]
  {
    hide Verify;
    var front := rows[..hi];
    assert front[lo..] == rows[lo..hi];
    AcceptedPrefix(env, rows, hi);
    VerifyCut(env, front, lo);
    Relink(env, front, lo, PrevOf(front, lo), "");
    if 0 < lo < hi {
      AcceptedLinks(env, rows, lo - 1);
    } else if lo < hi {
      AcceptedLinks(env, rows, 0);
    }
  }

  /** Leaving out the start, a pass over an accepted log up to any id is clean. */
  lemma EveryEndAccepted(env: Env, rows: seq<Row>, endId: Option<int>)
    requires Increasing(rows) && Accepted(env, rows)
    ensures Accepted(env, Window(rows, None, endId))
  {
    var lo, hi := WindowIsStretch(rows, None, endId);
    AcceptedPrefix(env, rows, hi);
  }

  // ---------- fields that do not come back ----------

  /** Behind any accepted log, an event whose covered fields come back changed is reported, once. */
  lemma ChangedEventIsReported(env: Env, rows: seq<Row>, w: Write)
    requires Accepted(env, rows) && w.Record? && env.column(w.event) != w.event
    ensures
      var prev, id := LastHash(rows, ""), NextId(rows) + w.gap;
      || WriteCollides(env, rows, w)
      || Verify(env, Step(env, rows, w), "")
           == [Violation(id, HashMismatch(env.digest(w.event, prev), env.digest(env.column(w.event), prev)))]
  {
    if !WriteCollides(env, rows, w) {
      StepVerdict(env, rows, w);
    }
  }

  /** The `actor_ip` that `record_event_from_request` passes on: the blank string when there is no audit context. */
  function RequestIp(context: Option<Option<string>>): Option<string> {
    if context.Some? then context.value else Some("")
  }

  /** The address column keeps no blank: Django stores a blank address as null. */
  ghost predicate BlankStoredAsNull(env: Env) {
    forall e: Event :: e.actorIp == Some("") ==> env.column(e).actorIp == None
  }

  /** An event recorded from a request without an audit context is reported. */
  lemma RequestWithoutContextIsReported(env: Env, rows: seq<Row>, w: Write)
    requires Accepted(env, rows) && BlankStoredAsNull(env)
    requires w.Record? && w.event.actorIp == RequestIp(None)
    ensures
      var prev, id := LastHash(rows, ""), NextId(rows) + w.gap;
      || WriteCollides(env, rows, w)
      || Verify(env, Step(env, rows, w), "")
           == [Violation(id, HashMismatch(env.digest(w.event, prev), env.digest(env.column(w.event), prev)))]
  {
    assert env.column(w.event) != w.event;
    ChangedEventIsReported(env, rows, w);
  }

  function NumberDetail(numeral: string): Value {
    Obj([Field("n", Num(numeral))])
  }

  /** So is one with a large float in its details: it is hashed as Python prints it, and a binary JSON column returns
      the number written out, which Python reads as an integer. */
  lemma LargeFloatIsReported(env: Env, rows: seq<Row>, w: Write)
    requires Accepted(env, rows) && w.Record? && w.event.detail == NumberDetail("1e+16")
    requires env.column(w.event) == w.event.(detail := NumberDetail("10000000000000000"))
    ensures WriteCollides(env, rows, w) || Verify(env, Step(env, rows, w), "") != []
  {
    NumeralsDiffer();
    ChangedEventIsReported(env, rows, w);
  }

  lemma NumeralsDiffer()
    ensures NumberDetail("1e+16") != NumberDetail("10000000000000000")
  {
    assert |"1e+16"| != |"10000000000000000"|;
    assert NumberDetail("1e+16").fields[0].value.numeral == "1e+16";
    assert NumberDetail("10000000000000000").fields[0].value.numeral == "10000000000000000";
  }
}
