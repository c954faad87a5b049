/** Weekly availability templates as date intervals, the overlap check that guards the table, and why a date
    then never has two templates. */
module Availability {
  import opened Options

  /** A stored row; dates and times are counted in days and minutes. */
  datatype Template = Template(
    staff: nat, dayOfWeek: nat, startTime: int, endTime: int, validFrom: int, validUntil: Option<int>)

  /** A form or instance before it is stored: any field may still be missing. */
  datatype Draft = Draft(
    staff: Option<nat>, dayOfWeek: Option<nat>, startTime: Option<int>, endTime: Option<int>,
    validFrom: Option<int>, validUntil: Option<int>)

  /** `active_on` */
  predicate ActiveOn(t: Template, date: int) {
    t.validFrom <= date && (t.validUntil.None? || t.validUntil.value >= date)
  }

  /** The check constraints of the table. */
  predicate MeetsConstraints(t: Template) {
    && t.endTime > t.startTime
    && (t.validUntil.None? || t.validUntil.value >= t.validFrom)
    && 1 <= t.dayOfWeek <= 7
  }

  /** The overlap test, `None` standing for an open end. */
  predicate Overlaps(fromA: int, untilA: Option<int>, fromB: int, untilB: Option<int>) {
    && (untilB.None? || fromA <= untilB.value)
    && (untilA.None? || fromB <= untilA.value)
  }

  predicate SameSlot(a: Template, b: Template) {
    a.staff == b.staff && a.dayOfWeek == b.dayOfWeek
  }

  /** On non-empty ranges the test holds exactly when some date lies in both. */
  lemma OverlapIffSharedDate(a: Template, b: Template)
    requires MeetsConstraints(a) && MeetsConstraints(b)
    ensures Overlaps(a.validFrom, a.validUntil, b.validFrom, b.validUntil) <==> exists d :: ActiveOn(a, d) && ActiveOn(b, d)
    ensures forall t, d :: ActiveOn(t, d) <==> t.validFrom <= d && (t.validUntil.Some? ==> d <= t.validUntil.value)
  {
    if Overlaps(a.validFrom, a.validUntil, b.validFrom, b.validUntil) {
      var d := if a.validFrom < b.validFrom then b.validFrom else a.validFrom;
      assert ActiveOn(a, d) && ActiveOn(b, d);
    }
  }

  datatype CleanResult = Clean | EndNotAfterStart | UntilBeforeFrom | OverlapsRow(pk: nat)

  ghost predicate AllMeetConstraints(rows: map<nat, Template>) {
    forall pk :: pk in rows ==> MeetsConstraints(rows[pk])
  }

  /** No date has two active templates of one staff member on one weekday. */
  ghost predicate Unambiguous(rows: map<nat, Template>) {
    forall p, q, d :: p in rows && q in rows && SameSlot(rows[p], rows[q]) && ActiveOn(rows[p], d) && ActiveOn(rows[q], d) ==> p == q
  }

  /** The row at `pk` stands in the way of `t`. */
  predicate Blocks(rows: map<nat, Template>, pk: nat, t: Template, own: Option<nat>) {
    && pk in rows && Some(pk) != own
    && SameSlot(rows[pk], t)
    && Overlaps(t.validFrom, t.validUntil, rows[pk].validFrom, rows[pk].validUntil)
  }

  predicate Complete(draft: Draft) {
    draft.staff.Some? && draft.dayOfWeek.Some? && draft.startTime.Some? && draft.endTime.Some? && draft.validFrom.Some?
  }

  function Filled(draft: Draft): Template
    requires Complete(draft)
  {
    Template(draft.staff.value, draft.dayOfWeek.value, draft.startTime.value, draft.endTime.value,
             draft.validFrom.value, draft.validUntil)
  }

  class TemplateTable {
    var rows: map<nat, Template>

    constructor ()
      ensures rows == map[]
    {
      rows := map[];
    }

    /** `clean`: the form checks, then the stored rows of the same slot other than the own one. A staff key of
        zero counts as missing. */
    method Check(draft: Draft, own: Option<nat>) returns (result: CleanResult)
      ensures result == EndNotAfterStart <==>
        draft.startTime.Some? && draft.endTime.Some? && draft.endTime.value <= draft.startTime.value
      ensures result == UntilBeforeFrom <==>
        && result != EndNotAfterStart
        && draft.validFrom.Some? && draft.validUntil.Some? && draft.validUntil.value < draft.validFrom.value
      ensures result.OverlapsRow? ==>
        && draft.staff.Some? && draft.staff.value != 0 && draft.dayOfWeek.Some? && draft.validFrom.Some?
        && forall s, e :: Blocks(rows, result.pk, Template(draft.staff.value, draft.dayOfWeek.value, s, e, draft.validFrom.value, draft.validUntil), own)
      ensures result == Clean && Complete(draft) && draft.staff.value != 0 ==>
        forall pk :: !Blocks(rows, pk, Filled(draft), own)
    {
      if draft.startTime.Some? && draft.endTime.Some? && draft.endTime.value <= draft.startTime.value {
        return EndNotAfterStart;
      }
      if draft.validFrom.Some? && draft.validUntil.Some? && draft.validUntil.value < draft.validFrom.value {
        return UntilBeforeFrom;
      }
      if draft.staff.Some? && draft.staff.value != 0 && draft.validFrom.Some? {
        var pks := set pk | pk in rows
          && Some(pk) != own && rows[pk].staff == draft.staff.value && draft.dayOfWeek == Some(rows[pk].dayOfWeek);
        var remaining := pks;
        while remaining != {}
          invariant remaining <= pks
          invariant forall pk :: pk in pks - remaining ==>
            !Overlaps(draft.validFrom.value, draft.validUntil, rows[pk].validFrom, rows[pk].validUntil)
          decreases |remaining|
        {
          var pk :| pk in remaining;
          var other := rows[pk];
          var aStartLteBEnd := other.validUntil.None? || draft.validFrom.value <= other.validUntil.value;
          var bStartLteAEnd := draft.validUntil.None? || other.validFrom <= draft.validUntil.value;
          if aStartLteBEnd && bStartLteAEnd {
            return OverlapsRow(pk);
          }
          remaining := remaining - {pk};
        }
      }
      return Clean;
    }

    /** A validated save: `clean`, then the insert or update, which the database refuses when a field is
        missing or a check constraint fails. A staff key of zero refers to nobody and is refused with them. */
    method Save(draft: Draft, own: Option<nat>, newKey: nat) returns (saved: bool)
      requires AllMeetConstraints(rows) && newKey !in rows
      requires own.Some? ==> own.value in rows
      modifies this
      ensures AllMeetConstraints(rows)
      ensures saved <==> Acceptable(old(rows), draft, own)
      ensures rows == if saved then Stored(old(rows), draft, own, newKey) else old(rows)
    {
      var result := Check(draft, own);
      saved := result == Clean && Complete(draft) && draft.staff.value != 0 && MeetsConstraints(Filled(draft));
      if saved {
        rows := Stored(rows, draft, own, newKey);
      } else if Complete(draft) && result.OverlapsRow? {
        assert Blocks(rows, result.pk, Filled(draft), own);
      }
    }
  }

  /** What a validated save accepts: a complete row that meets the constraints and that no other row blocks. */
  ghost predicate Acceptable(rows: map<nat, Template>, draft: Draft, own: Option<nat>) {
    && Complete(draft) && draft.staff.value != 0 && MeetsConstraints(Filled(draft))
    && forall pk :: !Blocks(rows, pk, Filled(draft), own)
  }

  function Stored(rows: map<nat, Template>, draft: Draft, own: Option<nat>, newKey: nat): map<nat, Template>
    requires Complete(draft)
  {
    rows[(if own.Some? then own.value else newKey) := Filled(draft)]
  }

  /** The same, field by field: everything filled in, a positive duration, a range that does not end before it starts, a day of
      the week, and no other row of the staff member and day whose range has a date in common. */
  lemma AcceptableSays(rows: map<nat, Template>, draft: Draft, own: Option<nat>)
    ensures Acceptable(rows, draft, own) <==>
      && draft.staff.Some? && draft.staff.value != 0 && draft.dayOfWeek.Some? && 1 <= draft.dayOfWeek.value <= 7
      && draft.startTime.Some? && draft.endTime.Some? && draft.startTime.value < draft.endTime.value
      && draft.validFrom.Some? && (draft.validUntil.Some? ==> draft.validFrom.value <= draft.validUntil.value)
      && forall pk :: pk in rows && own != Some(pk) && rows[pk].staff == draft.staff.value && rows[pk].dayOfWeek == draft.dayOfWeek.value ==>
          || (rows[pk].validUntil.Some? && rows[pk].validUntil.value < draft.validFrom.value)
          || (draft.validUntil.Some? && draft.validUntil.value < rows[pk].validFrom)
  {
    if Complete(draft) {
      forall pk | pk in rows
        ensures Blocks(rows, pk, Filled(draft), own) <==>
          && own != Some(pk) && rows[pk].staff == draft.staff.value && rows[pk].dayOfWeek == draft.dayOfWeek.value
          && (rows[pk].validUntil.Some? ==> draft.validFrom.value <= rows[pk].validUntil.value)
          && (draft.validUntil.Some? ==> rows[pk].validFrom <= draft.validUntil.value)
      {
      }
    }
  }

  /** What a save leaves: the draft's fields under its own key or the new one, and every other row as it was. */
  lemma StoredSays(rows: map<nat, Template>, draft: Draft, own: Option<nat>, newKey: nat, pk: nat)
    requires Complete(draft)
    ensures
      var key := if own.Some? then own.value else newKey;
      var after := Stored(rows, draft, own, newKey);
      && (pk in after <==> pk == key || pk in rows)
      && (pk in after && pk != key ==> after[pk] == rows[pk])
      && after[key].staff == draft.staff.value && after[key].dayOfWeek == draft.dayOfWeek.value
      && after[key].startTime == draft.startTime.value && after[key].endTime == draft.endTime.value
      && after[key].validFrom == draft.validFrom.value && after[key].validUntil == draft.validUntil
  {
  }

  /** The check refuses exactly the saves that would make some date ambiguous: behind an unambiguous table,
      a complete row within the constraints is accepted if and only if the table stays unambiguous. */
  lemma AcceptedIffUnambiguous(rows: map<nat, Template>, draft: Draft, own: Option<nat>, newKey: nat)
    requires AllMeetConstraints(rows) && Unambiguous(rows) && (if own.Some? then own.value in rows else newKey !in rows)
    requires Complete(draft) && draft.staff.value != 0 && MeetsConstraints(Filled(draft))
    ensures Acceptable(rows, draft, own) <==> Unambiguous(Stored(rows, draft, own, newKey))
  {
    var t, key, after := Filled(draft), if own.Some? then own.value else newKey, Stored(rows, draft, own, newKey);
    if Acceptable(rows, draft, own) {
      forall p, q, d | p in after && q in after && SameSlot(after[p], after[q]) && ActiveOn(after[p], d) && ActiveOn(after[q], d)
        ensures p == q
      {
        if p != q && (p == key || q == key) {
          var other := if p == key then q else p;
          OverlapIffSharedDate(t, rows[other]);
          assert Blocks(rows, other, t, own);
          assert false;
        }
      }
    } else {
      var pk: nat :| Blocks(rows, pk, t, own);
      OverlapIffSharedDate(t, rows[pk]);
      var d :| ActiveOn(t, d) && ActiveOn(rows[pk], d);
      assert after[pk] == rows[pk] && after[key] == t && pk != key;
      assert !Unambiguous(after);
    }
  }

  // ---------- runs ----------

  /** One change to the table: an insert or an edit that goes through the check, or a deletion. */
  datatype Change = Insert(draft: Draft, newKey: nat) | Edit(edited: Draft, pk: nat) | Delete(gone: nat)

  ghost function Applied(rows: map<nat, Template>, c: Change): map<nat, Template> {
    match c
    case Insert(draft, newKey) =>
      if newKey !in rows && Acceptable(rows, draft, None) then Stored(rows, draft, None, newKey) else rows
    case Edit(draft, pk) =>
      if pk in rows && Acceptable(rows, draft, Some(pk)) then Stored(rows, draft, Some(pk), pk) else rows
    case Delete(pk) => rows - {pk}
  }

  ghost function AppliedAll(changes: seq<Change>): map<nat, Template> {
    if changes == [] then map[] else Applied(AppliedAll(changes[..|changes| - 1]), changes[|changes| - 1])
  }

  lemma {:induction false} RunsStayUnambiguous(changes: seq<Change>)
    ensures AllMeetConstraints(AppliedAll(changes)) && Unambiguous(AppliedAll(changes))
  {
    if changes != [] {
      var rows, c := AppliedAll(changes[..|changes| - 1]), changes[|changes| - 1];
      RunsStayUnambiguous(changes[..|changes| - 1]);
      match c
      case Insert(draft, newKey) =>
        if newKey !in rows && Acceptable(rows, draft, None) {
          AcceptedIffUnambiguous(rows, draft, None, newKey);
        }
      case Edit(draft, pk) =>
        if pk in rows && Acceptable(rows, draft, Some(pk)) {
          AcceptedIffUnambiguous(rows, draft, Some(pk), pk);
        }
      case Delete(pk) =>
    }
  }

  /** After any sequence of changes, `active_on` finds at most one template per staff member and weekday. */
  lemma AtMostOneActive(changes: seq<Change>, staff: nat, dayOfWeek: nat, date: int)
    ensures
      var rows := AppliedAll(changes);
      |set pk: nat |
        && pk in rows && rows[pk].staff == staff && rows[pk].dayOfWeek == dayOfWeek
        && rows[pk].validFrom <= date && (rows[pk].validUntil.Some? ==> date <= rows[pk].validUntil.value)| <= 1
  {
    RunsStayUnambiguous(changes);
    var rows := AppliedAll(changes);
    var active := set pk: nat |
      && pk in rows && rows[pk].staff == staff && rows[pk].dayOfWeek == dayOfWeek
      && rows[pk].validFrom <= date && (rows[pk].validUntil.Some? ==> date <= rows[pk].validUntil.value);
    assert forall pk :: pk in active ==> ActiveOn(rows[pk], date);
    if p: nat :| p in active {
      assert forall q :: q in active ==> q == p;
      assert active == {p};
    } else {
      assert active == {};
    }
  }
}
