/** The outbox publisher: claims are handed to the broker one at a time, and every claim's outcome is recorded under
    its own identity before the next claim. */
module OutboxPublisher {
  import opened Options

  datatype Claim = Claim(outbox: nat, key: string, token: nat, generation: nat)

  datatype Handoff = Accepted | TimedOut | Failed

  /** The calls the publisher makes, with what came back. */
  datatype Call =
    | Claimed(claim: Claim) | NothingToClaim
    | Delayed(key: string, handoff: Handoff)
    | MarkedPublished(outbox: nat, token: nat, generation: nat, fenced: bool)  // `fenced`: the mark was refused
    | MarkedUnknown(outbox: nat, token: nat, generation: nat)
    | MarkedFailed(outbox: nat, token: nat, generation: nat)

  /** The runtime and the broker: what they answer may depend on every call so far. */
  datatype Surroundings = Surroundings(
    claim: seq<Call> -> Option<Claim>, delay: seq<Call> -> Handoff, accepts: seq<Call> -> bool)

  function Outcome(w: Surroundings, log: seq<Call>, c: Claim, h: Handoff): Call {
    match h
    case Accepted => MarkedPublished(c.outbox, c.token, c.generation, !w.accepts(log))
    case TimedOut => MarkedUnknown(c.outbox, c.token, c.generation)
    case Failed => MarkedFailed(c.outbox, c.token, c.generation)
  }

  /** The log after one claim has been dealt with. */
  function Round(w: Surroundings, log: seq<Call>, c: Claim): seq<Call> {
    var claimed := log + [Claimed(c)];
    var handed := claimed + [Delayed(c.key, w.delay(claimed))];
    handed + [Outcome(w, handed, c, w.delay(claimed))]
  }

  /** The runtime runs out of claims: by some measure, each one dealt with leaves fewer. */
  ghost predicate RunsOut(w: Surroundings, left: seq<Call> -> nat) {
    forall log, c :: w.claim(log) == Some(c) ==> left(Round(w, log, c)) < left(log)
  }

  // ---------- what a log must look like ----------

  predicate IsMark(call: Call) {
    call.MarkedPublished? || call.MarkedUnknown? || call.MarkedFailed?
  }

  /** At `i` a round begins: the runtime's claim, the hand-off of its key with the broker's answer, and the mark. */
  ghost predicate RoundAt(w: Surroundings, log: seq<Call>, i: int) {
    && 0 <= i && i + 2 < |log|
    && log[i].Claimed? && w.claim(log[..i]) == Some(log[i].claim)
    && log[i + 1] == Delayed(log[i].claim.key, w.delay(log[..i + 1]))
    && log[i + 2] == Outcome(w, log[..i + 2], log[i].claim, w.delay(log[..i + 1]))
  }

  /** From `from` up to `to` the log is made of rounds. */
  ghost predicate Rounds(w: Surroundings, log: seq<Call>, from: nat, to: nat) {
    && from <= to <= |log| && (to - from) % 3 == 0
    && forall i :: from <= i < to && (i - from) % 3 == 0 ==> RoundAt(w, log, i) && i + 2 < to
  }

  /** What a round says: the claim is the runtime's answer to the calls so far, its key is handed off, and the mark carries
      the claim's identity and is refused exactly when the runtime refuses it. */
  lemma RoundShows(w: Surroundings, log: seq<Call>, from: nat, to: nat, i: nat)
    requires Rounds(w, log, from, to) && from <= i < to && (i - from) % 3 == 0
    ensures i + 2 < to && log[i].Claimed? && w.claim(log[..i]) == Some(log[i].claim)
    ensures log[i + 1] == Delayed(log[i].claim.key, w.delay(log[..i + 1]))
    ensures
      var c := log[i].claim;
      match w.delay(log[..i + 1])
      case Accepted => log[i + 2] == MarkedPublished(c.outbox, c.token, c.generation, !w.accepts(log[..i + 2]))
      case TimedOut => log[i + 2] == MarkedUnknown(c.outbox, c.token, c.generation)
      case Failed => log[i + 2] == MarkedFailed(c.outbox, c.token, c.generation)
  {
    assert RoundAt(w, log, i);
  }

  lemma NextRound(w: Surroundings, log: seq<Call>, c: Claim, from: nat)
    requires Rounds(w, log, from, |log|) && w.claim(log) == Some(c)
    ensures Rounds(w, Round(w, log, c), from, |log| + 3)
  {
    hide Outcome;
    var longer := Round(w, log, c);
    forall i | from <= i < |longer| && (i - from) % 3 == 0
      ensures RoundAt(w, longer, i) && i + 2 < |longer|
    {
      if i < |log| {
        RoundKept(w, log, longer, i);
      } else {
        assert i == |log|;
        assert longer[..i] == log && longer[..i + 1] == log + [Claimed(c)];
        assert longer[..i + 2] == log + [Claimed(c)] + [Delayed(c.key, w.delay(log + [Claimed(c)]))];
      }
    }
  }

  lemma RoundKept(w: Surroundings, log: seq<Call>, longer: seq<Call>, i: nat)
    requires log <= longer && RoundAt(w, log, i)
    ensures RoundAt(w, longer, i)
  {
    hide Outcome;
    assert longer[..i] == log[..i] && longer[..i + 1] == log[..i + 1] && longer[..i + 2] == log[..i + 2];
  }

  lemma RoundsKept(w: Surroundings, log: seq<Call>, longer: seq<Call>, from: nat)
    requires log <= longer && Rounds(w, log, from, |log|)
    ensures Rounds(w, longer, from, |log|)
  {
    hide RoundAt;
    forall i | from <= i < |log| && (i - from) % 3 == 0
      ensures RoundAt(w, longer, i)
    {
      assert RoundAt(w, log, i);
      RoundKept(w, log, longer, i);
    }
  }

  /** In such a log every mark belongs to exactly the claim two calls before it: none is lost, doubled or given
      another claim's token. */
  lemma MarksMatchClaims(w: Surroundings, log: seq<Call>, from: nat, i: nat)
    requires Rounds(w, log, from, |log|) && from <= i < |log|
    ensures IsMark(log[i]) ==>
      && i >= from + 2 && log[i - 2].Claimed? && log[i - 1].Delayed? && log[i - 1].key == log[i - 2].claim.key
      && log[i].outbox == log[i - 2].claim.outbox && log[i].token == log[i - 2].claim.token
      && log[i].generation == log[i - 2].claim.generation
      && (log[i].MarkedPublished? <==> log[i - 1].handoff == Accepted)
      && (log[i].MarkedUnknown? <==> log[i - 1].handoff == TimedOut)
    ensures log[i].Claimed? ==> i + 2 < |log| && IsMark(log[i + 2]) && !log[i + 1].Claimed? && !IsMark(log[i + 1])
  {
    var phase := (i - from) % 3;
    var start := i - phase;
    assert (start - from) % 3 == 0;
    assert RoundAt(w, log, start);
  }

  /** Accepted marks from `from` on. */
  ghost function AcceptedMarks(w: Surroundings, log: seq<Call>, from: nat): set<nat> {
    set i: nat | from <= i < |log| && log[i].MarkedPublished? && w.accepts(log[..i])
  }

  lemma MarkCounted(w: Surroundings, log: seq<Call>, call: Call, from: nat)
    requires from <= |log|
    ensures |AcceptedMarks(w, log + [call], from)|
         == |AcceptedMarks(w, log, from)| + (if call.MarkedPublished? && w.accepts(log) then 1 else 0)
  {
    var longer := log + [call];
    assert longer[..|log|] == log;
    assert forall i: nat :: i < |log| ==> longer[i] == log[i] && longer[..i] == log[..i];
    var before, after := AcceptedMarks(w, log, from), AcceptedMarks(w, longer, from);
    if call.MarkedPublished? && w.accepts(log) {
      assert after == before + {|log|};
    } else {
      assert after == before;
    }
  }

  // ---------- the loop ----------

  class Worker {
    /** Every call made so far, by this run of the worker and earlier ones. */
    var log: seq<Call>

    /** `publish_scheduler_outbox` */
    method Publish(w: Surroundings, ghost left: seq<Call> -> nat) returns (published: nat)
      requires RunsOut(w, left)
      modifies this
      ensures old(log) <= log && |log| > |old(log)| && log[|log| - 1] == NothingToClaim
      ensures w.claim(log[..|log| - 1]) == None
      ensures Rounds(w, log, |old(log)|, |log| - 1)
      ensures published == |set i: nat | |old(log)| <= i < |log| && log[i].MarkedPublished? && w.accepts(log[..i])|
    {
      published := 0;
      ghost var from := |log|;
      while true
        invariant from == |old(log)| && old(log) <= log
        invariant Rounds(w, log, from, |log|)
        invariant published == |AcceptedMarks(w, log, from)|
        decreases left(log)
      {
        ghost var start := log;
        var claim := w.claim(log);
        if claim.None? {
          MarkCounted(w, log, NothingToClaim, from);
          log := log + [NothingToClaim];
          RoundsKept(w, start, log, from);
          assert log[..|log| - 1] == start;
          break;
        }
        var c := claim.value;
        NextRound(w, log, c, from);
        MarkCounted(w, log, Claimed(c), from);
        log := log + [Claimed(c)];
        var handoff := w.delay(log);
        MarkCounted(w, log, Delayed(c.key, handoff), from);
        log := log + [Delayed(c.key, handoff)];
        MarkCounted(w, log, Outcome(w, log, c, handoff), from);
        if handoff == TimedOut {
          log := log + [MarkedUnknown(c.outbox, c.token, c.generation)];
        } else if handoff == Failed {
          log := log + [MarkedFailed(c.outbox, c.token, c.generation)];
        } else {
          var marked := w.accepts(log);
          log := log + [MarkedPublished(c.outbox, c.token, c.generation, !marked)];
          if marked {
            published := published + 1;
          }
        }
        assert log == Round(w, start, c);
      }
    }
  }
}
