/** The encrypted text column across deployments that change the key list. */
module EncryptedField {
  import opened Options

  type Bytes = seq<nat>

  /** Authenticated encryption as the field uses it: a raw setting becomes a key, and a text is sealed under it. */
  datatype Cipher<!K> = Cipher(key: string -> K, seal: (K, string, nat) -> Bytes, unseal: (K, Bytes) -> Option<string>)

  /** Only the sealing key opens a token, and it opens it to the sealed text. A token is never empty. */
  ghost predicate Authentic<K(!new)>(c: Cipher<K>) {
    && (forall k, text, nonce :: c.seal(k, text, nonce) != [])
    && (forall k, text, nonce :: c.unseal(k, c.seal(k, text, nonce)) == Some(text))
    && (forall k, other, text, nonce :: other != k ==> c.unseal(other, c.seal(k, text, nonce)) == None)
  }

  /** One deployment: `FERNET_KEYS`, if set, and `SECRET_KEY`. */
  datatype Settings = Settings(fernetKeys: Option<seq<string>>, secretKey: string)

  /** A value given to the field: nothing, a text, or bytes taken for a token already. */
  datatype Value = Nothing | Text(text: string) | Raw(bytes: Bytes)

  // ---------- the key ring ----------

  function RawKeys(s: Settings): (keys: seq<string>)
    ensures keys != []
  {
    if s.fernetKeys.None? || s.fernetKeys.value == [] then [s.secretKey] else s.fernetKeys.value
  }

  function Ring<K>(c: Cipher<K>, s: Settings): seq<K> {
    seq(|RawKeys(s)|, i requires 0 <= i < |RawKeys(s)| => c.key(RawKeys(s)[i]))
  }

  /** The loop of `_get_fernet`. */
  method BuildRing<K>(c: Cipher<K>, s: Settings) returns (ring: seq<K>)
    ensures s.fernetKeys.None? || s.fernetKeys.value == [] ==> ring == [c.key(s.secretKey)]
    ensures s.fernetKeys.Some? && s.fernetKeys.value != [] ==>
      && |ring| == |s.fernetKeys.value|
      && forall i :: 0 <= i < |ring| ==> ring[i] == c.key(s.fernetKeys.value[i])
    ensures ring == Ring(c, s)
  {
    var rawKeys := [s.secretKey];
    if s.fernetKeys.Some? && s.fernetKeys.value != [] {
      rawKeys := s.fernetKeys.value;
    }
    ring := [];
    for i := 0 to |rawKeys|
      invariant ring == Ring(c, s)[..i]
    {
      ring := ring + [c.key(rawKeys[i])];
    }
  }

  /** The keys are tried in their order. */
  function UnsealAny<K>(c: Cipher<K>, ring: seq<K>, token: Bytes): Option<string> {
    if ring == [] then None
    else if c.unseal(ring[0], token).Some? then c.unseal(ring[0], token)
    else UnsealAny(c, ring[1..], token)
  }

  // ---------- the field ----------

  /** `get_prep_value` */
  function Prepare<K>(c: Cipher<K>, s: Settings, v: Value, nonce: nat): Bytes {
    match v
    case Nothing => []
    case Text(text) => if text == "" then [] else c.seal(Ring(c, s)[0], text, nonce)
    case Raw(bytes) => bytes
  }

  /** `from_db_value`; whatever cannot be opened reads as the empty text. */
  function Load<K>(c: Cipher<K>, s: Settings, stored: Bytes): string {
    if stored == [] then ""
    else
      var opened_ := UnsealAny(c, Ring(c, s), stored);
      if opened_.Some? then opened_.value else ""
  }

  /** The text a value stands for. */
  function Meaning(v: Value): string {
    if v.Text? then v.text else ""
  }

  /** The key a deployment seals with. */
  function SealingKey<K>(c: Cipher<K>, s: Settings): K {
    Ring(c, s)[0]
  }

  lemma {:induction false} UnsealIff<K(!new)>(c: Cipher<K>, ring: seq<K>, k: K, text: string, nonce: nat)
    requires Authentic(c)
    ensures UnsealAny(c, ring, c.seal(k, text, nonce)) == if k in ring then Some(text) else None
  {
    if ring != [] && ring[0] != k {
      UnsealIff(c, ring[1..], k, text, nonce);
      assert k in ring <==> k in ring[1..];
    }
  }

  /** A text written under one deployment reads back under another exactly when the later one still has the key the
      earlier one sealed with. Nothing and the empty text always read back as the empty text. */
  lemma ReadsBackIff<K(!new)>(c: Cipher<K>, then_: Settings, now: Settings, v: Value, nonce: nat)
    requires Authentic(c) && !v.Raw?
    ensures Load(c, now, Prepare(c, then_, v, nonce)) == Meaning(v)
       <==> Meaning(v) == "" || SealingKey(c, then_) in Ring(c, now)
  {
    if Meaning(v) != "" {
      UnsealIff(c, Ring(c, now), SealingKey(c, then_), v.text, nonce);
    }
  }

  /** The same on the settings alone: the first listed key seals, or the secret key where none is listed, and a text
      reads back exactly when some key of the later deployment, or its secret key where it lists none, makes the same key.
      Otherwise the text reads as empty. */
  lemma FirstKeySeals<K(!new)>(c: Cipher<K>, then_: Settings, now: Settings, text: string, nonce: nat)
    requires Authentic(c) && text != ""
    ensures
      var first := if then_.fernetKeys.None? || then_.fernetKeys.value == [] then then_.secretKey else then_.fernetKeys.value[0];
      Load(c, now, Prepare(c, then_, Text(text), nonce))
        == if (if now.fernetKeys.None? || now.fernetKeys.value == [] then c.key(now.secretKey) == c.key(first)
               else exists i :: 0 <= i < |now.fernetKeys.value| && c.key(now.fernetKeys.value[i]) == c.key(first))
           then text else ""
  {
    UnsealIff(c, Ring(c, now), SealingKey(c, then_), text, nonce);
    RingMembers(c, now, SealingKey(c, then_));
  }

  lemma RingMembers<K>(c: Cipher<K>, s: Settings, k: K)
    ensures k in Ring(c, s) <==>
      if s.fernetKeys.None? || s.fernetKeys.value == [] then c.key(s.secretKey) == k
      else exists i :: 0 <= i < |s.fernetKeys.value| && c.key(s.fernetKeys.value[i]) == k
  {
    var ring := Ring(c, s);
    if s.fernetKeys.None? || s.fernetKeys.value == [] {
      assert ring == [c.key(s.secretKey)];
    } else if i :| 0 <= i < |s.fernetKeys.value| && c.key(s.fernetKeys.value[i]) == k {
      assert ring[i] == k;
    }
  }

  /** Nothing and the empty text are stored as nothing, bytes as they are, and nothing reads as the empty text. */
  lemma StoredAsIs<K>(c: Cipher<K>, s: Settings, nonce: nat, bytes: Bytes)
    ensures Prepare(c, s, Nothing, nonce) == [] && Prepare(c, s, Text(""), nonce) == []
    ensures Prepare(c, s, Raw(bytes), nonce) == bytes
    ensures Load(c, s, []) == ""
  {
  }

  // ---------- histories ----------

  /** A deployment, or a row saved under the deployment of the moment. */
  datatype Event = Deploy(settings: Settings) | Save(row: nat, value: Value, nonce: nat)

  datatype World = World(settings: Settings, column: map<nat, Bytes>)

  function Next<K>(c: Cipher<K>, w: World, e: Event): World {
    match e
    case Deploy(settings) => w.(settings := settings)
    case Save(row, v, nonce) => w.(column := w.column[row := Prepare(c, w.settings, v, nonce)])
  }

  function After<K>(c: Cipher<K>, w: World, events: seq<Event>): World {
    if events == [] then w else Next(c, After(c, w, events[..|events| - 1]), events[|events| - 1])
  }

  /** Rotation as the field documents it: new keys go in front, none is taken away. */
  predicate Prepends(before: Settings, after: Settings) {
    && |RawKeys(before)| <= |RawKeys(after)|
    && RawKeys(after)[|RawKeys(after)| - |RawKeys(before)|..] == RawKeys(before)
  }

  ghost predicate Rotates<K>(c: Cipher<K>, w: World, events: seq<Event>) {
    forall i :: 0 <= i < |events| && events[i].Deploy? ==> Prepends(After(c, w, events[..i]).settings, events[i].settings)
  }

  /** The row was last saved by event `i`. */
  predicate LastSave(events: seq<Event>, row: nat, i: int) {
    && 0 <= i < |events| && events[i].Save? && events[i].row == row
    && forall j :: i < j < |events| && events[j].Save? ==> events[j].row != row
  }

  lemma {:induction false} ColumnAfter<K>(c: Cipher<K>, w: World, events: seq<Event>, row: nat, i: int)
    requires LastSave(events, row, i)
    ensures var end := After(c, w, events);
            row in end.column && end.column[row] == Prepare(c, After(c, w, events[..i]).settings, events[i].value, events[i].nonce)
    decreases |events|
  {
    var last := |events| - 1;
    var front := events[..last];
    if i < last {
      assert front[..i] == events[..i];
      assert LastSave(front, row, i);
      ColumnAfter(c, w, front, row, i);
    }
  }

  /** The last event of a rotation keeps the keys of the events before it. */
  lemma LastKept<K>(c: Cipher<K>, w: World, events: seq<Event>)
    requires Rotates(c, w, events) && events != []
    ensures Rotates(c, w, events[..|events| - 1])
    ensures Prepends(After(c, w, events[..|events| - 1]).settings, After(c, w, events).settings)
  {
    var last := |events| - 1;
    var front := events[..last];
    assert forall j :: 0 <= j < last ==> front[..j] == events[..j];
    if events[last].Deploy? {
      assert Prepends(After(c, w, front).settings, events[last].settings);
    }
  }

  lemma {:induction false} KeysKept<K>(c: Cipher<K>, w: World, events: seq<Event>, i: int)
    requires Rotates(c, w, events) && 0 <= i <= |events|
    ensures Prepends(After(c, w, events[..i]).settings, After(c, w, events).settings)
    decreases |events|
  {
    hide Rotates;
    if i == |events| {
      assert events[..i] == events;
    } else {
      hide Prepends, After;
      var front := events[..|events| - 1];
      LastKept(c, w, events);
      KeysKept(c, w, front, i);
      assert front[..i] == events[..i];
    }
  }

  lemma PrependedKeyThere<K>(c: Cipher<K>, before: Settings, after: Settings)
    requires Prepends(before, after)
    ensures SealingKey(c, before) in Ring(c, after)
  {
    var at := |RawKeys(after)| - |RawKeys(before)|;
    assert RawKeys(after)[at] == RawKeys(after)[at..][0] == RawKeys(before)[0];
    assert Ring(c, after)[at] == SealingKey(c, before);
  }

  /** For any history in which deployments only prepend keys, every row reads as the text last saved in it. */
  lemma {:induction false} RotationLosesNothing<K(!new)>(c: Cipher<K>, w: World, events: seq<Event>, row: nat, i: int)
    requires Authentic(c) && Rotates(c, w, events) && LastSave(events, row, i) && !events[i].value.Raw?
    ensures var end := After(c, w, events);
            row in end.column && Load(c, end.settings, end.column[row]) == Meaning(events[i].value)
  {
    var then_, now := After(c, w, events[..i]).settings, After(c, w, events).settings;
    ColumnAfter(c, w, events, row, i);
    KeysKept(c, w, events, i);
    PrependedKeyThere(c, then_, now);
    ReadsBackIff(c, then_, now, events[i].value, events[i].nonce);
  }

  // ---------- reading and saving again ----------

  /** Reading a row and saving it again moves it to the deployment's first key without changing it, so that every
      older key may then be dropped. A row whose key is gone is erased by this: no later deployment reads it. */
  lemma ResaveRekeys<K(!new)>(c: Cipher<K>, then_: Settings, now: Settings, later: Settings, text: string, n1: nat, n2: nat)
    requires Authentic(c) && text != ""
    ensures
      var stored := Prepare(c, then_, Text(text), n1);
      var again := Prepare(c, now, Text(Load(c, now, stored)), n2);
      var first := if now.fernetKeys.None? || now.fernetKeys.value == [] then now.secretKey else now.fernetKeys.value[0];
      && (Load(c, now, stored) == text ==>
            (Load(c, later, again) == text <==>
              if later.fernetKeys.None? || later.fernetKeys.value == [] then c.key(later.secretKey) == c.key(first)
              else exists i :: 0 <= i < |later.fernetKeys.value| && c.key(later.fernetKeys.value[i]) == c.key(first)))
      && (Load(c, now, stored) != text ==> again == [] && Load(c, later, again) == "")
  {
    FirstKeySeals(c, then_, now, text, n1);
    FirstKeySeals(c, now, later, text, n2);
  }

  /** Moving from the fallback key to a key list: what was written before reads back exactly when some listed setting
      makes the fallback key, and as empty otherwise. */
  lemma LeavingTheFallback<K(!new)>(c: Cipher<K>, secret: string, keys: seq<string>, text: string, nonce: nat)
    requires Authentic(c) && text != "" && keys != []
    ensures Load(c, Settings(Some(keys), secret), Prepare(c, Settings(None, secret), Text(text), nonce))
         == if exists i :: 0 <= i < |keys| && c.key(keys[i]) == c.key(secret) then text else ""
  {
    var before, after := Settings(None, secret), Settings(Some(keys), secret);
    var ring := Ring(c, after);
    UnsealIff(c, ring, SealingKey(c, before), text, nonce);
    if i :| 0 <= i < |keys| && c.key(keys[i]) == c.key(secret) {
      assert ring[i] == c.key(secret);
    }
  }
}
