/** The single-use export download: one transaction per attempt, rolled back whenever it raises. */
module ExportDownload {
  import opened Options
  import opened Counting

  datatype Status = PENDING | PROCESSING | READY | DELIVERED | FAILED | EXPIRED

  /** The export file: its storage key, and whether its category is transitory. */
  datatype ExportDocument = ExportDocument(storageKey: string, transitory: bool)

  datatype Request = Request(
    citizen: nat, status: Status, expiresAt: Option<int>, token: Option<nat>, document: Option<ExportDocument>)

  datatype Action = ExportReady | ExportDownloaded | ExportMarkedDelivered | ExportExpired | OtherAction

  datatype AuditEntry = AuditEntry(citizen: nat, actor: Option<nat>, action: Action, request: nat)

  datatype State = State(requests: map<nat, Request>, audit: seq<AuditEntry>)

  /** One GET: who asks with which token and when, and whether the file can be opened afterwards. */
  datatype Attempt = Attempt(token: nat, user: nat, now: int, opens: bool)

  datatype Response = NotFound | MissingFile | UnreadableFile | Served(request: nat)

  /** The response, and the request whose document was handed to disposal, if one was. */
  datatype Answer = Answer(response: Response, disposed: Option<nat>)

  // ---------- what one attempt may do ----------

  predicate Holds(requests: map<nat, Request>, pk: nat, token: nat) {
    pk in requests && requests[pk].token == Some(token)
  }

  /** Only the owner, only while ready, only before expiry, only with a file. */
  predicate Deliverable(s: State, a: Attempt, pk: nat) {
    && Holds(s.requests, pk, a.token)
    && s.requests[pk].citizen == a.user
    && s.requests[pk].status == READY
    && (s.requests[pk].expiresAt.Some? ==> a.now <= s.requests[pk].expiresAt.value)
    && s.requests[pk].document.Some?
  }

  /** Ready, owned, in time, but without a file. */
  predicate Fileless(s: State, a: Attempt, pk: nat) {
    && Holds(s.requests, pk, a.token)
    && Deliverable(s.(requests := s.requests[pk := s.requests[pk].(document := Some(ExportDocument("", false)))]), a, pk)
    && s.requests[pk].document.None?
  }

  function Delivered(s: State, a: Attempt, pk: nat): State
    requires pk in s.requests
  {
    State(
      s.requests[pk := s.requests[pk].(status := DELIVERED, token := None)],
      s.audit + [AuditEntry(a.user, Some(a.user), ExportDownloaded, pk)])
  }

  /** What an attempt turns `s` into and answers: a delivery, a complaint about a missing file, or nothing. */
  ghost predicate Attempted(s: State, a: Attempt, s': State, answer: Answer) {
    && (forall pk :: Deliverable(s, a, pk) ==>
          && s' == Delivered(s, a, pk)
          && answer == Answer(if a.opens then Served(pk) else UnreadableFile,
                              if s.requests[pk].document.value.transitory then Some(pk) else None))
    && ((forall pk :: !Deliverable(s, a, pk)) ==> s' == s && answer.disposed == None)
    && ((forall pk :: !Deliverable(s, a, pk) && !Fileless(s, a, pk)) ==> answer.response == NotFound)
    && (forall pk :: Fileless(s, a, pk) ==> answer.response == MissingFile)
  }

  /** The database keeps tokens unique. */
  ghost predicate UniqueTokens(requests: map<nat, Request>) {
    forall p, q :: p in requests && q in requests && requests[p].token.Some? && requests[p].token == requests[q].token ==> p == q
  }

  /** The request and audit tables, and the code that writes them. */
  class ExportTables {
    var requests: map<nat, Request>
    var audit: seq<AuditEntry>

    function Now(): State
      reads this
    {
      State(requests, audit)
    }

    /** `ExportDownloadView.get`. The block up to the end of the match runs in a transaction: raising 404 in
        it puts the tables back. */
    method Get(a: Attempt) returns (answer: Answer)
      requires UniqueTokens(requests)
      modifies this
      ensures Attempted(old(Now()), a, Now(), answer)
    {
      var before := Now();
      var documentForDisposal: Option<nat> := None;
      var found: nat;
      if pk :| pk in requests && requests[pk].token == Some(a.token) {
        found := pk;
      } else {
        return Answer(NotFound, None);
      }
      assert forall pk :: Holds(requests, pk, a.token) ==> pk == found;
      var req := requests[found];
      if req.citizen != a.user {
        return Answer(NotFound, None);
      }
      if req.status == READY && req.expiresAt.Some? && req.expiresAt.value < a.now {
        requests := requests[found := req.(status := EXPIRED)];
        if req.document.Some? && req.document.value.transitory {
          documentForDisposal := Some(found);
        }
        // Raising here undoes the mark just saved, and the disposal after the block is never reached.
        requests, audit := before.requests, before.audit;
        return Answer(NotFound, None);
      }
      if req.status != READY {
        return Answer(NotFound, None);
      }
      if req.document.None? {
        return Answer(MissingFile, None);
      }
      requests := requests[found := req.(status := DELIVERED, token := None)];
      audit := audit + [AuditEntry(a.user, Some(a.user), ExportDownloaded, found)];
      assert Deliverable(before, a, found);
      // After the commit: disposal, then the file. Neither can undo the delivery.
      var disposed := if req.document.value.transitory then Some(found) else None;
      if !a.opens {
        return Answer(UnreadableFile, disposed);
      }
      return Answer(Served(found), disposed);
    }

    /** The loop of `cleanup_export_files` over the overdue requests, in whatever order the query yields them. */
    method Sweep(now: int, due: seq<nat>)
      requires forall pk :: pk in due <==> Overdue(requests, now, pk)
      requires Distinct(due)
      modifies this
      ensures Now() == Swept(old(Now()), now, due)
    {
      ghost var before := Now();
      for i := 0 to |due|
        invariant requests.Keys == before.requests.Keys
        invariant forall pk :: pk in requests ==>
          requests[pk] == if pk in due[..i] then before.requests[pk].(status := EXPIRED) else before.requests[pk]
        invariant audit == before.audit + Expiries(before.requests, due)[..i]
      {
        var pk := due[i];
        assert pk in due && Overdue(before.requests, now, pk);
        requests := requests[pk := requests[pk].(status := EXPIRED)];
        audit := audit + [AuditEntry(requests[pk].citizen, None, ExportExpired, pk)];
      }
      assert due[..|due|] == due && Expiries(before.requests, due)[..|due|] == Expiries(before.requests, due);
    }

    /** The staff screen: a ready request can be marked delivered by hand. It keeps its token. */
    method MarkDelivered(staff: nat, pk: nat) returns (ok: bool)
      modifies this
      ensures ok <==> pk in old(requests) && old(requests)[pk].status == READY
      ensures ok ==>
        && requests == old(requests)[pk := old(requests)[pk].(status := DELIVERED)]
        && audit == old(audit) + [AuditEntry(old(requests)[pk].citizen, Some(staff), ExportMarkedDelivered, pk)]
      ensures Now() == if ok then MarkedDelivered(old(Now()), staff, pk) else old(Now())
    {
      if pk !in requests || requests[pk].status != READY {
        return false;
      }
      requests := requests[pk := requests[pk].(status := DELIVERED)];
      audit := audit + [AuditEntry(requests[pk].citizen, Some(staff), ExportMarkedDelivered, pk)];
      ok := true;
    }

    /** The end of `process_data_export`: the finished file makes the request ready. The request was read when the
        work began; what happened to its status since then is overwritten. */
    method Finish(pk: nat, document: Option<ExportDocument>, expiresAt: int)
      requires pk in requests
      modifies this
      ensures
        var was := old(requests)[pk];
        && requests == old(requests)[pk := Request(was.citizen, READY, Some(expiresAt), was.token,
                                                   if document.Some? then document else was.document)]
        && audit == old(audit) + [AuditEntry(was.citizen, None, ExportReady, pk)]
      ensures Now() == Finished(old(Now()), pk, document, expiresAt)
    {
      var req := requests[pk].(status := READY, expiresAt := Some(expiresAt));
      if document.Some? {
        req := req.(document := document);
      }
      requests := requests[pk := req];
      audit := audit + [AuditEntry(req.citizen, None, ExportReady, pk)];
    }
  }

  // ---------- the other writers ----------

  predicate Overdue(requests: map<nat, Request>, now: int, pk: nat) {
    pk in requests && requests[pk].status == READY && requests[pk].expiresAt.Some? && requests[pk].expiresAt.value <= now
  }

  function Expiries(requests: map<nat, Request>, due: seq<nat>): seq<AuditEntry>
    requires forall pk :: pk in due ==> pk in requests
  {
    seq(|due|, i requires 0 <= i < |due| => AuditEntry(requests[due[i]].citizen, None, ExportExpired, due[i]))
  }

  function Swept(s: State, now: int, due: seq<nat>): State
    requires forall pk :: pk in due <==> Overdue(s.requests, now, pk)
  {
    assert forall pk :: pk in due ==> Overdue(s.requests, now, pk);
    State(
      map pk | pk in s.requests :: if Overdue(s.requests, now, pk) then s.requests[pk].(status := EXPIRED) else s.requests[pk],
      s.audit + Expiries(s.requests, due))
  }

  function MarkedDelivered(s: State, staff: nat, pk: nat): State
    requires pk in s.requests
  {
    State(
      s.requests[pk := s.requests[pk].(status := DELIVERED)],
      s.audit + [AuditEntry(s.requests[pk].citizen, Some(staff), ExportMarkedDelivered, pk)])
  }

  function Finished(s: State, pk: nat, document: Option<ExportDocument>, expiresAt: int): State
    requires pk in s.requests
  {
    var req := s.requests[pk];
    State(
      s.requests[pk := req.(status := READY, expiresAt := Some(expiresAt),
                            document := if document.Some? then document else req.document)],
      s.audit + [AuditEntry(req.citizen, None, ExportReady, pk)])
  }

  /** The sweep, the staff screen and the worker all do no more than `Rely` allows, so the results about runs cover
      them, in any order and even where they overwrite a status. */
  lemma WritersObeyRely(s: State, now: int, due: seq<nat>, staff: nat, pk: nat, document: Option<ExportDocument>, expiresAt: int)
    requires UniqueTokens(s.requests) && pk in s.requests
    requires forall k :: k in due <==> Overdue(s.requests, now, k)
    ensures Rely(s, Swept(s, now, due))
    ensures Rely(s, MarkedDelivered(s, staff, pk))
    ensures Rely(s, Finished(s, pk, document, expiresAt))
  {
    hide Rely, Swept, UniqueTokens;
    SweptRelies(s, now, due);
    OneRequestRelies(s, MarkedDelivered(s, staff, pk), pk);
    OneRequestRelies(s, Finished(s, pk, document, expiresAt), pk);
  }

  lemma OneRequestRelies(s: State, s': State, pk: nat)
    requires UniqueTokens(s.requests) && pk in s.requests && pk in s'.requests && s'.requests == s.requests[pk := s'.requests[pk]]
    requires s'.requests[pk].token == s.requests[pk].token && s'.requests[pk].citizen == s.requests[pk].citizen
    requires |s'.audit| == |s.audit| + 1 && s'.audit[..|s.audit|] == s.audit && s'.audit[|s.audit|].action != ExportDownloaded
    ensures Rely(s, s')
  {
  }

  lemma SweptRelies(s: State, now: int, due: seq<nat>)
    requires UniqueTokens(s.requests)
    requires forall k :: k in due <==> Overdue(s.requests, now, k)
    ensures Rely(s, Swept(s, now, due))
  {
    var s' := Swept(s, now, due);
    assert forall k :: |s.audit| <= k < |s'.audit| ==> s'.audit[k] == Expiries(s.requests, due)[k - |s.audit|];
  }

  /** The sweep expires exactly the ready requests whose time has come, that moment included, and logs each under its
      citizen without an actor. */
  lemma SweptShows(s: State, now: int, due: seq<nat>)
    requires forall k :: k in due <==> Overdue(s.requests, now, k)
    ensures Swept(s, now, due).requests.Keys == s.requests.Keys
    ensures forall k :: k in s.requests ==>
      var was := s.requests[k];
      Swept(s, now, due).requests[k]
        == if was.status == READY && was.expiresAt.Some? && was.expiresAt.value <= now then was.(status := EXPIRED) else was
    ensures |Swept(s, now, due).audit| == |s.audit| + |due| && s.audit <= Swept(s, now, due).audit
    ensures forall i :: 0 <= i < |due| ==>
      && due[i] in s.requests
      && Swept(s, now, due).audit[|s.audit| + i] == AuditEntry(s.requests[due[i]].citizen, None, ExportExpired, due[i])
  {
    forall i | 0 <= i < |due|
      ensures due[i] in s.requests
    {
      assert Overdue(s.requests, now, due[i]);
    }
  }

  /** What the sweep expires nobody can download any more, unless a worker makes it ready again. */
  lemma SweptIsClosed(s: State, now: int, due: seq<nat>, a: Attempt, pk: nat)
    requires forall k :: k in due <==> Overdue(s.requests, now, k)
    ensures Deliverable(Swept(s, now, due), a, pk) <==> Deliverable(s, a, pk) && !Overdue(s.requests, now, pk)
  {
  }

  /** A delivered request that an overlapping worker makes ready again stays undeliverable: its token is gone. */
  lemma ReadyAgainStaysSpent(s: State, pk: nat, document: Option<ExportDocument>, expiresAt: int, a: Attempt)
    requires Spent(s, pk)
    ensures Finished(s, pk, document, expiresAt).requests[pk].status == READY
    ensures Spent(Finished(s, pk, document, expiresAt), pk)
    ensures !Deliverable(Finished(s, pk, document, expiresAt), a, pk)
  {
  }

  // ---------- runs, with everybody else writing in between ----------

  /** What happened between two states: an attempt, or anything the other writers do. */
  datatype Event = Try(attempt: Attempt, answer: Answer) | Interference

  function Tokens(s: State): set<nat> {
    set pk | pk in s.requests && s.requests[pk].token.Some? :: s.requests[pk].token.value
  }

  /** All that is assumed of the other writers: they keep the owner and the token of every request and log no download. Statuses,
      expiry times and documents may change in any way, and requests may be added. */
  ghost predicate Rely(s: State, s': State) {
    && (forall pk :: pk in s.requests ==>
          pk in s'.requests && s'.requests[pk].token == s.requests[pk].token && s'.requests[pk].citizen == s.requests[pk].citizen)
    && UniqueTokens(s'.requests)
    && s.audit <= s'.audit
    && (forall k :: |s.audit| <= k < |s'.audit| ==> s'.audit[k].action != ExportDownloaded)
  }

  /** Tokens are random and never handed out twice. */
  ghost predicate FreshTokens(states: seq<State>, i: nat)
    requires i + 1 < |states|
  {
    forall pk, j :: pk in states[i + 1].requests && pk !in states[i].requests && states[i + 1].requests[pk].token.Some? && 0 <= j <= i ==>
      states[i + 1].requests[pk].token.value !in Tokens(states[j])
  }

  ghost predicate Trace(states: seq<State>, events: seq<Event>) {
    && |states| == |events| + 1
    && UniqueTokens(states[0].requests)
    && forall i :: 0 <= i < |events| ==>
        match events[i]
        case Try(a, answer) => Attempted(states[i], a, states[i + 1], answer)
        case Interference => Rely(states[i], states[i + 1]) && FreshTokens(states, i)
  }

  ghost predicate DeliversAt(states: seq<State>, events: seq<Event>, i: nat, pk: nat)
    requires i < |states| && i < |events|
  {
    events[i].Try? && Deliverable(states[i], events[i].attempt, pk)
  }

  /** Deliveries of request `pk` among the first `n` events. */
  ghost function Deliveries(states: seq<State>, events: seq<Event>, n: nat, pk: nat): nat
    requires n <= |events| && n <= |states|
  {
    if n == 0 then 0 else Deliveries(states, events, n - 1, pk) + (if DeliversAt(states, events, n - 1, pk) then 1 else 0)
  }

  /** `export_downloaded` entries about request `pk`. */
  function Downloads(audit: seq<AuditEntry>, pk: nat): nat {
    if audit == [] then 0
    else
      Downloads(audit[..|audit| - 1], pk)
      + (if audit[|audit| - 1].action == ExportDownloaded && audit[|audit| - 1].request == pk then 1 else 0)
  }

  lemma {:induction false} DownloadsUnchanged(a: seq<AuditEntry>, b: seq<AuditEntry>, pk: nat)
    requires a <= b && forall k :: |a| <= k < |b| ==> b[k].action != ExportDownloaded
    ensures Downloads(b, pk) == Downloads(a, pk)
  {
    if |b| > |a| {
      DownloadsUnchanged(a, b[..|b| - 1], pk);
    } else {
      assert a == b;
    }
  }

  /** One attempt leaves tokens unique, and at most one request can be delivered by it. */
  lemma AttemptKeepsTokensUnique(s: State, a: Attempt, s': State, answer: Answer)
    requires UniqueTokens(s.requests) && Attempted(s, a, s', answer)
    ensures UniqueTokens(s'.requests)
    ensures forall p, q :: Deliverable(s, a, p) && Deliverable(s, a, q) ==> p == q
  {
    if pk :| Deliverable(s, a, pk) {
      assert s' == Delivered(s, a, pk);
    }
  }

  lemma {:induction false} TokensStayUnique(states: seq<State>, events: seq<Event>, n: nat)
    requires Trace(states, events) && n < |states|
    ensures UniqueTokens(states[n].requests)
  {
    if n > 0 {
      TokensStayUnique(states, events, n - 1);
      match events[n - 1]
      case Try(a, answer) => AttemptKeepsTokensUnique(states[n - 1], a, states[n], answer);
      case Interference =>
    }
  }

  /** A delivered request has lost its token. */
  ghost predicate Spent(s: State, pk: nat) {
    pk in s.requests && s.requests[pk].token == None
  }

  lemma AttemptEffect(s: State, a: Attempt, s': State, answer: Answer, pk: nat)
    requires UniqueTokens(s.requests) && Attempted(s, a, s', answer)
    ensures Spent(s, pk) ==> Spent(s', pk) && !Deliverable(s, a, pk)
    ensures Deliverable(s, a, pk) ==> Spent(s', pk)
    ensures Downloads(s'.audit, pk) == Downloads(s.audit, pk) + (if Deliverable(s, a, pk) then 1 else 0)
  {
    if p :| Deliverable(s, a, p) {
      assert s' == Delivered(s, a, p);
      assert s'.audit[..|s'.audit| - 1] == s.audit;
      if Deliverable(s, a, pk) {
        AttemptKeepsTokensUnique(s, a, s', answer);
      }
    }
  }

  /** Over any run, with the other writers doing what they may in between: each request is delivered at most
      once, and its download entries are exactly its deliveries. */
  lemma {:induction false} DeliveredAtMostOnce(states: seq<State>, events: seq<Event>, n: nat, pk: nat)
    requires Trace(states, events) && n <= |events|
    ensures Deliveries(states, events, n, pk) <= 1
    ensures Deliveries(states, events, n, pk) == 1 ==> Spent(states[n], pk)
    ensures Downloads(states[n].audit, pk) == Downloads(states[0].audit, pk) + Deliveries(states, events, n, pk)
  {
    if n > 0 {
      DeliveredAtMostOnce(states, events, n - 1, pk);
      TokensStayUnique(states, events, n - 1);
      match events[n - 1]
      case Try(a, answer) => AttemptEffect(states[n - 1], a, states[n], answer, pk);
      case Interference => DownloadsUnchanged(states[n - 1].audit, states[n].audit, pk);
    }
  }

  lemma NothingDelivered(s: State, a: Attempt, s': State, answer: Answer)
    requires Attempted(s, a, s', answer) && forall pk :: !Deliverable(s, a, pk)
    ensures s' == s && answer.disposed == None
    ensures answer.response == NotFound || answer.response == MissingFile
  {
    if pk :| Fileless(s, a, pk) {
      assert answer.response == MissingFile;
    }
  }

  /** An attempt that answers 404 or complains about a missing file changes nothing; in particular an export
      found expired is not marked expired and its document is not disposed of. */
  lemma RefusalChangesNothing(s: State, a: Attempt, s': State, answer: Answer)
    requires Attempted(s, a, s', answer)
    requires answer.response == NotFound || answer.response == MissingFile
    ensures s' == s && answer.disposed == None
  {
    if pk :| Deliverable(s, a, pk) {
      assert false;
    }
  }

  /** A request is delivered exactly when the asker presents its token, owns it, and it is ready, not past its expiry and
      has a file. A file that cannot be opened has used up its token all the same. */
  lemma ServedOnlyToOwner(s: State, a: Attempt, s': State, answer: Answer)
    requires Attempted(s, a, s', answer)
    ensures answer.response.Served? || answer.response.UnreadableFile? <==> exists pk ::
      && pk in s.requests && s.requests[pk].token == Some(a.token) && s.requests[pk].citizen == a.user
      && s.requests[pk].status == READY && s.requests[pk].document.Some?
      && (s.requests[pk].expiresAt.Some? ==> a.now <= s.requests[pk].expiresAt.value)
  {
    if pk :| Deliverable(s, a, pk) {
    } else {
      NothingDelivered(s, a, s', answer);
      assert forall pk :: pk in s.requests && s.requests[pk].token == Some(a.token) ==> Holds(s.requests, pk, a.token);
    }
  }

  /** What a delivery does: the request is delivered and its token gone, nothing else about it or any other request
      changes, and one entry says that the owner downloaded it. */
  lemma DeliveryToOwner(s: State, a: Attempt, s': State, answer: Answer, pk: nat)
    requires Attempted(s, a, s', answer)
    requires pk in s.requests && s.requests[pk].token == Some(a.token) && s.requests[pk].citizen == a.user
    requires s.requests[pk].status == READY && s.requests[pk].document.Some?
    requires s.requests[pk].expiresAt.Some? ==> a.now <= s.requests[pk].expiresAt.value
    ensures
      var was := s.requests[pk];
      && s'.requests == s.requests[pk := Request(was.citizen, DELIVERED, was.expiresAt, None, was.document)]
      && s'.audit == s.audit + [AuditEntry(was.citizen, Some(was.citizen), ExportDownloaded, pk)]
      && answer.response == (if a.opens then Served(pk) else UnreadableFile)
      && answer.disposed == (if was.document.value.transitory then Some(pk) else None)
  {
  }

  /** A missing file is complained about exactly to the owner of a ready request in time that has none. */
  lemma MissingFileIff(s: State, a: Attempt, s': State, answer: Answer)
    requires UniqueTokens(s.requests) && Attempted(s, a, s', answer)
    ensures answer.response.MissingFile? <==> exists pk ::
      && pk in s.requests && s.requests[pk].token == Some(a.token) && s.requests[pk].citizen == a.user
      && s.requests[pk].status == READY && s.requests[pk].document.None?
      && (s.requests[pk].expiresAt.Some? ==> a.now <= s.requests[pk].expiresAt.value)
  {
    if pk :| Deliverable(s, a, pk) {
      assert forall q :: q in s.requests && s.requests[q].token == Some(a.token) ==> q == pk;
    } else if pk :| Fileless(s, a, pk) {
      assert answer.response == MissingFile;
    } else {
      NoFilelessNow(s, a);
    }
  }

  lemma NoFilelessNow(s: State, a: Attempt)
    requires forall pk :: !Fileless(s, a, pk)
    ensures !exists pk ::
      && pk in s.requests && s.requests[pk].token == Some(a.token) && s.requests[pk].citizen == a.user
      && s.requests[pk].status == READY && s.requests[pk].document.None?
      && (s.requests[pk].expiresAt.Some? ==> a.now <= s.requests[pk].expiresAt.value)
  {
    forall pk | pk in s.requests && s.requests[pk].token == Some(a.token)
      ensures !Fileless(s, a, pk)
    {
    }
  }

  // ---------- tokens ----------

  /** An attempt hands out no token. */
  lemma AttemptAddsNoToken(s: State, a: Attempt, s': State, answer: Answer)
    requires Attempted(s, a, s', answer)
    ensures Tokens(s') <= Tokens(s)
  {
    if pk :| Deliverable(s, a, pk) {
      forall p | p in s'.requests && s'.requests[p].token.Some?
        ensures p in s.requests && s.requests[p].token == s'.requests[p].token
      {
      }
    } else {
      NothingDelivered(s, a, s', answer);
    }
  }

  /** The other writers add only tokens that no earlier state held. */
  lemma InterferenceAddsFreshTokens(states: seq<State>, i: nat, j: nat, token: nat)
    requires i + 1 < |states| && j <= i
    requires Rely(states[i], states[i + 1]) && FreshTokens(states, i)
    requires token in Tokens(states[j]) && token in Tokens(states[i + 1])
    ensures token in Tokens(states[i])
  {
    var pk :| pk in states[i + 1].requests && states[i + 1].requests[pk].token == Some(token);
    if pk in states[i].requests {
      assert states[i].requests[pk].token.value in Tokens(states[i]);
    }
  }

  lemma {:induction false} TokenStaysGone(states: seq<State>, events: seq<Event>, token: nat, i: nat, j: nat)
    requires Trace(states, events) && i < j < |states|
    requires token in Tokens(states[i]) && token !in Tokens(states[i + 1])
    ensures token !in Tokens(states[j])
  {
    if j > i + 1 {
      TokenStaysGone(states, events, token, i, j - 1);
      match events[j - 1]
      case Try(a, answer) => AttemptAddsNoToken(states[j - 1], a, states[j], answer);
      case Interference =>
        if token in Tokens(states[j]) {
          InterferenceAddsFreshTokens(states, j - 1, i, token);
          assert false;
        }
    }
  }

  lemma UnknownTokenRefused(s: State, a: Attempt, s': State, answer: Answer)
    requires Attempted(s, a, s', answer) && a.token !in Tokens(s)
    ensures answer == Answer(NotFound, None) && s' == s
  {
    forall p
      ensures !Holds(s.requests, p, a.token)
    {
      assert p in s.requests && s.requests[p].token.Some? ==> s.requests[p].token.value in Tokens(s);
    }
  }

  /** A token that delivered once is refused for ever after, whoever presents it. */
  lemma TokenIsSingleUse(states: seq<State>, events: seq<Event>, i: nat, j: nat, pk: nat)
    requires Trace(states, events) && i < j < |events|
    requires DeliversAt(states, events, i, pk)
    requires events[j].Try? && events[j].attempt.token == events[i].attempt.token
    ensures events[j].answer == Answer(NotFound, None) && states[j + 1] == states[j]
  {
    TokensStayUnique(states, events, i);
    TokenStaysGone(states, events, events[i].attempt.token, i, j);
    UnknownTokenRefused(states[j], events[j].attempt, states[j + 1], events[j].answer);
  }
}
