/** The digest the audit log really uses: SHA-256 over the sorted-key JSON text of the covered fields and the link. */
module AuditDigest {
  import opened Options
  import opened JsonText
  import opened AuditChain

  const PAYLOAD_KEYS: seq<string> := [
    "actor_id", "actor_ip", "event_detail", "event_type", "outcome", "prev_hash", "resource_id", "resource_type"]

  function OptionalText(o: Option<string>): Value {
    match o
    case None => Null
    case Some(s) => Str(s)
  }

  function PayloadValues(e: Event, prevHash: string): seq<Value> {
    [OptionalText(e.actorId), OptionalText(e.actorIp), e.detail, Str(e.eventType),
     Str(e.outcome), Str(prevHash), Str(e.resourceId), Str(e.resourceType)]
  }

  function PayloadFields(e: Event, prevHash: string): seq<Field> {
    var values := PayloadValues(e, prevHash);
    seq(8, i requires 0 <= i < 8 => Field(PAYLOAD_KEYS[i], values[i]))
  }

  function HashedText(e: Event, prevHash: string): string {
    Dumps(Obj(PayloadFields(e, prevHash)))
  }

  lemma PayloadInjective(e: Event, p: string, f: Event, q: string)
    requires PayloadFields(e, p) == PayloadFields(f, q)
    ensures e == f && p == q
  {
    var a, b := PayloadValues(e, p), PayloadValues(f, q);
    forall i | 0 <= i < 8
      ensures a[i] == b[i]
    {
      assert PayloadFields(e, p)[i].value == a[i] && PayloadFields(f, q)[i].value == b[i];
    }
    assert a[0] == b[0] && a[1] == b[1] && a[2] == b[2] && a[3] == b[3];
    assert a[4] == b[4] && a[5] == b[5] && a[6] == b[6] && a[7] == b[7];
  }

  lemma PayloadWellFormed(e: Event, p: string)
    requires WellFormed(e.detail)
    ensures WellFormed(Obj(PayloadFields(e, p)))
  {
    var fields := PayloadFields(e, p);
    forall i | 0 <= i < |fields|
      ensures WellFormed(fields[i].value)
    {
      assert fields[i].value == PayloadValues(e, p)[i];
    }
  }

  /** What the hash is taken over: read as JSON, the text holds each covered field and the link under its own name. */
  lemma HashedTextSays(e: Event, p: string)
    requires WellFormed(e.detail)
    ensures ReadValue(HashedText(e, p)) == Some(Parsed(Obj([
              Field("actor_id", if e.actorId.None? then Null else Str(e.actorId.value)),
              Field("actor_ip", if e.actorIp.None? then Null else Str(e.actorIp.value)),
              Field("event_detail", e.detail),
              Field("event_type", Str(e.eventType)),
              Field("outcome", Str(e.outcome)),
              Field("prev_hash", Str(p)),
              Field("resource_id", Str(e.resourceId)),
              Field("resource_type", Str(e.resourceType))]), ""))
  {
    hide ReadValue, Dumps;
    PayloadWellFormed(e, p);
    DumpsReadBack(Obj(PayloadFields(e, p)));
    PayloadListed(e, p);
  }

  lemma PayloadListed(e: Event, p: string)
    ensures PayloadFields(e, p) == [
              Field("actor_id", if e.actorId.None? then Null else Str(e.actorId.value)),
              Field("actor_ip", if e.actorIp.None? then Null else Str(e.actorIp.value)),
              Field("event_detail", e.detail),
              Field("event_type", Str(e.eventType)),
              Field("outcome", Str(e.outcome)),
              Field("prev_hash", Str(p)),
              Field("resource_id", Str(e.resourceId)),
              Field("resource_type", Str(e.resourceType))]
  {
    var keys, values := PAYLOAD_KEYS, PayloadValues(e, p);
    assert PayloadFields(e, p) == [
      Field(keys[0], values[0]), Field(keys[1], values[1]), Field(keys[2], values[2]), Field(keys[3], values[3]),
      Field(keys[4], values[4]), Field(keys[5], values[5]), Field(keys[6], values[6]), Field(keys[7], values[7])];
  }

  /** Before in the order of code points, the order of `sort_keys`. */
  predicate Before(a: string, b: string) {
    b != "" && (a == "" || a[0] < b[0] || (a[0] == b[0] && Before(a[1..], b[1..])))
  }

  lemma {:induction false} SkipCommon(front: string, a: string, b: string)
    ensures Before(front + a, front + b) <==> Before(a, b)
  {
    if front == "" {
      assert front + a == a && front + b == b;
    } else {
      assert (front + a)[1..] == front[1..] + a && (front + b)[1..] == front[1..] + b;
      SkipCommon(front[1..], a, b);
    }
  }

  lemma FirstDecides(a: string, b: string)
    requires a != "" && b != "" && a[0] < b[0]
    ensures Before(a, b)
  {
  }

  /** The keys of the hashed text stand in their sorted order. */
  lemma KeysSorted()
    ensures Before("actor_id", "actor_ip") && Before("actor_ip", "event_detail") && Before("event_detail", "event_type")
    ensures Before("event_type", "outcome") && Before("outcome", "prev_hash") && Before("prev_hash", "resource_id")
    ensures Before("resource_id", "resource_type")
  {
    hide Before;
    CommonKeys();
    FirstDecides("actor_ip", "event_detail");
    FirstDecides("event_type", "outcome");
    FirstDecides("outcome", "prev_hash");
    FirstDecides("prev_hash", "resource_id");
  }

  lemma CommonKeys()
    ensures Before("actor_id", "actor_ip") && Before("event_detail", "event_type") && Before("resource_id", "resource_type")
  {
    hide Before;
    SkipCommon("actor_i", "d", "p");
    FirstDecides("d", "p");
    assert "actor_i" + "d" == "actor_id" && "actor_i" + "p" == "actor_ip";
    SkipCommon("event_", "detail", "type");
    FirstDecides("detail", "type");
    assert "event_" + "detail" == "event_detail" && "event_" + "type" == "event_type";
    SkipCommon("resource_", "id", "type");
    FirstDecides("id", "type");
    assert "resource_" + "id" == "resource_id" && "resource_" + "type" == "resource_type";
  }

  /** The hashed text determines every covered field and the link. */
  lemma HashedTextInjective(e: Event, p: string, f: Event, q: string)
    requires WellFormed(e.detail) && WellFormed(f.detail)
    requires HashedText(e, p) == HashedText(f, q)
    ensures e == f && p == q
  {
    PayloadWellFormed(e, p);
    PayloadWellFormed(f, q);
    DumpsInjective(Obj(PayloadFields(e, p)), Obj(PayloadFields(f, q)));
    PayloadInjective(e, p, f, q);
  }

  /** An environment that hashes texts: `sha` is SHA-256 as 64 characters, `text` what is hashed. */
  function TextEnv(sha: string -> Digest, text: (Event, string) -> string, column: Event -> Event): Env {
    Env((e: Event, p: string) => sha(text(e, p)), column)
  }

  /** The text tells the contents of any two rows of the logs apart. */
  ghost predicate TellsApart(text: (Event, string) -> string, a: seq<Row>, b: seq<Row>) {
    forall i, j :: 0 <= i < |a| && 0 <= j < |b| && text(a[i].event, a[i].prevHash) == text(b[j].event, b[j].prevHash) ==>
      a[i].event == b[j].event && a[i].prevHash == b[j].prevHash
  }

  ghost predicate ShaCollision(sha: string -> Digest, x: string, y: string) {
    x != y && sha(x) == sha(y)
  }

  /** Two accepted logs ending in one hash agree on every covered field, or two of the texts hashed in them
      are a SHA-256 collision. */
  lemma LastHashBindsText(
    sha: string -> Digest, text: (Event, string) -> string, column: Event -> Event, a: seq<Row>, b: seq<Row>)
    requires TellsApart(text, a, b)
    requires Accepted(TextEnv(sha, text, column), a) && Accepted(TextEnv(sha, text, column), b)
    requires LastHash(a, "") == LastHash(b, "")
    ensures
      || SameCovered(a, b)
      || exists i, j :: 0 <= i < |a| && 0 <= j < |b| && ShaCollision(sha, text(a[i].event, a[i].prevHash), text(b[j].event, b[j].prevHash))
  {
    var env := TextEnv(sha, text, column);
    LastHashBinds(env, a, b);
    if !SameCovered(a, b) {
      var i, j :| 0 <= i < |a| && 0 <= j < |b| && Collide(env, a[i], b[j]);
      assert ShaCollision(sha, text(a[i].event, a[i].prevHash), text(b[j].event, b[j].prevHash));
    }
  }

  ghost predicate DetailsWellFormed(rows: seq<Row>) {
    forall i :: 0 <= i < |rows| ==> WellFormed(rows[i].event.detail)
  }

  /** The JSON text of the covered fields does tell any two rows apart. */
  lemma {:induction false} HashedTextTellsApart(a: seq<Row>, b: seq<Row>)
    requires DetailsWellFormed(a) && DetailsWellFormed(b)
    ensures TellsApart((e: Event, p: string) => HashedText(e, p), a, b)
  {
    forall i, j | 0 <= i < |a| && 0 <= j < |b| && HashedText(a[i].event, a[i].prevHash) == HashedText(b[j].event, b[j].prevHash)
      ensures a[i].event == b[j].event && a[i].prevHash == b[j].prevHash
    {
      HashedTextInjective(a[i].event, a[i].prevHash, b[j].event, b[j].prevHash);
    }
  }
}
