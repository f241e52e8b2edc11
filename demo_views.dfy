/**
 * The rules embedded in the demo pages: the match page scores the fixture
 * events for a volunteer, suggests the best one, lists warnings about the
 * selected event and, on a submission, checks the override reason and
 * builds the saved record; the history page filters the fixture history by
 * volunteer, status and an inclusive date range and lists it newest first.
 */
module DemoViews {
  import opened Wrappers
  import opened Text
  import opened Calendar
  import opened StableSort
  import opened Sequences
  import opened Validators

  // ------------------------------------------------------------------
  // The match page
  // ------------------------------------------------------------------

  /** A fixture volunteer, with the fields the match page reads. */
  datatype DemoVolunteer = DemoVolunteer(
    id: int, name: string, skills: seq<string>, availability: seq<string>, certifications: seq<string>)

  /** A fixture event, with the fields the match page reads. */
  datatype DemoEvent = DemoEvent(
    id: int, title: string, requiredSkills: seq<string>, slot: string, capacityRemaining: int, bgCheck: bool)

  /** The volunteer's skills that the event requires. */
  function Overlap(ev: DemoEvent, v: DemoVolunteer): set<string>
  {
    Elems(v.skills) * Elems(ev.requiredSkills)
  }

  /** The event's slot is one of the volunteer's. */
  predicate TimeFit(ev: DemoEvent, v: DemoVolunteer)
  {
    ev.slot in v.availability
  }

  /** The inner `score(ev, v)`: ten points per shared skill and one for the time slot. */
  function Score(ev: DemoEvent, v: DemoVolunteer): (r: int)
    ensures r >= 0
    ensures r / 10 == |Overlap(ev, v)|
    ensures r % 10 == if TimeFit(ev, v) then 1 else 0
  {
    |Overlap(ev, v)| * 10 + (if TimeFit(ev, v) then 1 else 0)
  }

  /** One more shared skill outweighs the time slot: events are ranked by shared skills
      first and by time fit only among events with as many shared skills. */
  lemma SkillsOutweighTimeFit(a: DemoEvent, b: DemoEvent, v: DemoVolunteer)
    ensures |Overlap(a, v)| > |Overlap(b, v)| ==> Score(a, v) > Score(b, v)
    ensures Score(a, v) > Score(b, v) ==>
      |Overlap(a, v)| > |Overlap(b, v)| || (|Overlap(a, v)| == |Overlap(b, v)| && TimeFit(a, v) && !TimeFit(b, v))
  {
  }

  /** `i` is the first position of `events` with the greatest score. */
  predicate IsFirstMax(events: seq<DemoEvent>, v: DemoVolunteer, i: int)
  {
    && 0 <= i < |events|
    && (forall j :: 0 <= j < |events| ==> Score(events[j], v) <= Score(events[i], v))
    && (forall j :: 0 <= j < i ==> Score(events[j], v) < Score(events[i], v))
  }

  /** `max(events, key=lambda e: score(e, volunteer))`, as a position: `max` keeps the
      first of equal maxima; on an empty list it raises, here `None`. */
  function Suggest(events: seq<DemoEvent>, v: DemoVolunteer): (r: Option<nat>)
    ensures r.None? <==> events == []
    ensures r.Some? ==> IsFirstMax(events, v, r.value)
  {
    if events == [] then None
    else if |events| == 1 then Some(0)
    else
      var k := Suggest(events[1..], v).value;
      var i := if Score(events[0], v) >= Score(events[k + 1], v) then 0 else k + 1;
      FirstMaxStep(events, v, k);
      Some(i)
  }

  /** The first maximum of a list is its head or the first maximum of its tail,
      whichever scores more, the head on a tie. */
  lemma FirstMaxStep(events: seq<DemoEvent>, v: DemoVolunteer, k: int)
    requires |events| >= 2 && IsFirstMax(events[1..], v, k)
    ensures IsFirstMax(events, v, if Score(events[0], v) >= Score(events[k + 1], v) then 0 else k + 1)
  {
    assert forall j :: 1 <= j < |events| ==> events[j] == events[1..][j - 1];
  }

  /** The first maximum is unique, so any position with its two properties is the
      suggestion. */
  lemma SuggestUnique(events: seq<DemoEvent>, v: DemoVolunteer, i: int)
    requires IsFirstMax(events, v, i)
    ensures Suggest(events, v) == Some(i)
  {
    var k := Suggest(events, v).value;
    assert Score(events[k], v) == Score(events[i], v);
  }

  const NoCapacity := "No capacity remaining."
  const MissingPrefix := "Missing required skills: "
  const NotAvailable := "Volunteer not available for this time slot."
  const NoBackgroundCheck := "Background check required but not on file."

  /** The required skills the volunteer lacks. */
  function Missing(ev: DemoEvent, v: DemoVolunteer): set<string>
  {
    Elems(ev.requiredSkills) - Elems(v.skills)
  }

  /** The warning naming the missing skills, in code-point order. */
  function MissingMessage(missing: set<string>): string
  {
    MissingPrefix + Join(SortedStrings(missing), ", ") + "."
  }

  predicate NeedsBackgroundCheck(ev: DemoEvent, v: DemoVolunteer)
  {
    ev.bgCheck && "Background Check" !in v.certifications
  }

  /** The place of a warning in the fixed order of the checks. The source has no such
      function: it appends the warnings in that order. The rank is read from the first
      letter, which differs among the four warnings, so that the verifier need not
      compare whole messages; `MissingMessageRank` and `FixedRanks` fix the rank
      of each warning. */
  function WarningRank(w: string): int
  {
    if w == [] then 3
    else if w[0] == 'N' then 0
    else if w[0] == 'M' then 1
    else if w[0] == 'V' then 2
    else 3
  }

  lemma MissingMessageRank(missing: set<string>)
    ensures WarningRank(MissingMessage(missing)) == 1
  {
    assert MissingMessage(missing)[0] == MissingPrefix[0];
  }

  lemma FixedRanks()
    ensures WarningRank(NoCapacity) == 0 && WarningRank(NotAvailable) == 2 && WarningRank(NoBackgroundCheck) == 3
  {
  }

  /** The number of conditions that hold, one warning each. */
  function WarningCount(ev: DemoEvent, v: DemoVolunteer): nat
  {
    (if ev.capacityRemaining <= 0 then 1 else 0) + (if Missing(ev, v) != {} then 1 else 0)
    + (if !TimeFit(ev, v) then 1 else 0) + (if NeedsBackgroundCheck(ev, v) then 1 else 0)
  }

  function Cond(b: bool, w: string): seq<string>
  {
    if b then [w] else []
  }

  /** Four conditional warnings of ranks 0 to 3, in rank order: each is present exactly
      when its condition holds, and the list is ordered by rank. */
  lemma FourInOrder(b0: bool, w0: string, b1: bool, w1: string, b2: bool, w2: string, b3: bool, w3: string)
    requires WarningRank(w0) == 0 && WarningRank(w1) == 1 && WarningRank(w2) == 2 && WarningRank(w3) == 3
    ensures var ws := Cond(b0, w0) + Cond(b1, w1) + Cond(b2, w2) + Cond(b3, w3);
      && (w0 in ws <==> b0) && (w1 in ws <==> b1) && (w2 in ws <==> b2) && (w3 in ws <==> b3)
      && (forall i, j :: 0 <= i < j < |ws| ==> WarningRank(ws[i]) < WarningRank(ws[j]))
  {
    AppendRanked([], b0, w0);
    AppendRanked(Cond(b0, w0), b1, w1);
    AppendRanked(Cond(b0, w0) + Cond(b1, w1), b2, w2);
    AppendRanked(Cond(b0, w0) + Cond(b1, w1) + Cond(b2, w2), b3, w3);
  }

  /** Appending a warning outranking all present ones keeps the list in rank order. */
  lemma AppendRanked(ws: seq<string>, b: bool, w: string)
    requires forall i, j :: 0 <= i < j < |ws| ==> WarningRank(ws[i]) < WarningRank(ws[j])
    requires forall i :: 0 <= i < |ws| ==> WarningRank(ws[i]) < WarningRank(w)
    ensures forall x :: x in ws + Cond(b, w) <==> x in ws || (b && x == w)
    ensures w !in ws
    ensures var ws' := ws + Cond(b, w);
      forall i, j :: 0 <= i < j < |ws'| ==> WarningRank(ws'[i]) < WarningRank(ws'[j])
    ensures var ws' := ws + Cond(b, w);
      forall i :: 0 <= i < |ws'| ==> WarningRank(ws'[i]) <= WarningRank(w)
  {
  }

  /** The `warnings` list of `match_volunteer`, built by appending. Each warning is
      present exactly when its condition holds, there is no other, and they come in
      the fixed order of the checks. */
  method Warnings(selected: DemoEvent, volunteer: DemoVolunteer) returns (warnings: seq<string>)
    ensures NoCapacity in warnings <==> selected.capacityRemaining <= 0
    ensures MissingMessage(Missing(selected, volunteer)) in warnings <==> Missing(selected, volunteer) != {}
    ensures NotAvailable in warnings <==> !TimeFit(selected, volunteer)
    ensures NoBackgroundCheck in warnings <==> NeedsBackgroundCheck(selected, volunteer)
    ensures |warnings| == WarningCount(selected, volunteer)
    ensures forall i, j :: 0 <= i < j < |warnings| ==> WarningRank(warnings[i]) < WarningRank(warnings[j])
  {
    var missing := Missing(selected, volunteer);
    var w0, w1, w2, w3 := NoCapacity, MissingMessage(missing), NotAvailable, NoBackgroundCheck;
    var c0, c1 := selected.capacityRemaining <= 0, missing != {};
    var c2, c3 := !TimeFit(selected, volunteer), NeedsBackgroundCheck(selected, volunteer);
    MissingMessageRank(missing);
    FixedRanks();
    FourInOrder(c0, w0, c1, w1, c2, w2, c3, w3);
    warnings := [];
    if selected.capacityRemaining <= 0 {
      warnings := warnings + [w0];
    }
    assert warnings == Cond(c0, w0);
    if missing != {} {
      warnings := warnings + [w1];
    }
    assert warnings == Cond(c0, w0) + Cond(c1, w1);
    if !(selected.slot in volunteer.availability) {
      warnings := warnings + [w2];
    }
    assert warnings == Cond(c0, w0) + Cond(c1, w1) + Cond(c2, w2);
    if selected.bgCheck && "Background Check" !in volunteer.certifications {
      warnings := warnings + [w3];
    }
    assert warnings == Cond(c0, w0) + Cond(c1, w1) + Cond(c2, w2) + Cond(c3, w3);
  }

  /** The posted form: the value `POST.get` returns for each key present. */
  type Form = map<string, string>

  function Get(form: Form, k: string): Option<string>
  {
    if k in form then Some(form[k]) else None
  }

  const OverrideReasonRequired := "Override reason is required when override is checked."

  /** The override box is ticked and the reason is missing or blank. */
  predicate OverrideWithoutReason(form: Form)
  {
    Get(form, "override") == Some("on") && IsBlank(Get(form, "override_reason").GetOr(""))
  }

  /** `(value or "").strip() or None`. */
  function StripOrNone(o: Option<string>): (r: Option<string>)
    ensures r.None? <==> o.None? || AllSpace(o.value)
    ensures r.Some? ==> r.value == Strip(o.value) && r.value != "" && Strip(r.value) == r.value
  {
    if o.None? then None
    else
      BlankIffAllSpace(o.value);
      StripIdempotent(o.value);
      if Strip(o.value) == "" then None else Some(Strip(o.value))
  }

  /** The `saved` record of a submission. */
  datatype Saved = Saved(
    volunteerId: int, eventId: int, action: Option<string>, notify: bool, override: bool,
    overrideReason: Option<string>, adminNotes: Option<string>, matchScore: int, matchReason: string,
    warnings: seq<string>)

  /** `f"{len(overlap)} skill match; time fit={time_fit}"`. */
  function MatchReason(ev: DemoEvent, v: DemoVolunteer): string
  {
    Decimal(|Overlap(ev, v)|) + " skill match; time fit=" + (if TimeFit(ev, v) then "True" else "False")
  }

  function SavedRecord(form: Form, volunteer: DemoVolunteer, selected: DemoEvent, warnings: seq<string>): (s: Saved)
    ensures s.volunteerId == volunteer.id && s.eventId == selected.id && s.action == Get(form, "action")
    ensures s.notify <==> Get(form, "action") == Some("assign_notify")
    ensures s.override <==> Get(form, "override") == Some("on")
    ensures s.overrideReason == StripOrNone(Get(form, "override_reason"))
    ensures s.adminNotes == StripOrNone(Get(form, "admin_notes"))
    ensures s.matchScore == Score(selected, volunteer) && s.matchReason == MatchReason(selected, volunteer)
    ensures s.warnings == warnings
  {
    Saved(volunteer.id, selected.id, Get(form, "action"), Get(form, "action") == Some("assign_notify"),
          Get(form, "override") == Some("on"), StripOrNone(Get(form, "override_reason")),
          StripOrNone(Get(form, "admin_notes")), Score(selected, volunteer), MatchReason(selected, volunteer),
          warnings)
  }

  /** A record can only be saved with an override when the override carries a
      reason, stripped and not empty. */
  lemma SavedOverrideHasReason(form: Form, volunteer: DemoVolunteer, selected: DemoEvent, warnings: seq<string>)
    requires !OverrideWithoutReason(form)
    ensures var s := SavedRecord(form, volunteer, selected, warnings);
      s.override ==> s.overrideReason.Some? && s.overrideReason.value != ""
  {
    var reason := Get(form, "override_reason").GetOr("");
    BlankIffAllSpace(reason);
  }

  /** The submission branch of `match_volunteer`: the `errors` list, built by appending,
      and the `saved` record, produced only when there is no error. */
  method Submit(isPost: bool, form: Form, volunteer: DemoVolunteer, selected: DemoEvent, warnings: seq<string>)
    returns (saved: Option<Saved>, errors: seq<string>)
    ensures errors == (if isPost && OverrideWithoutReason(form) then [OverrideReasonRequired] else [])
    ensures saved.Some? <==> isPost && !OverrideWithoutReason(form)
    ensures saved.Some? ==> saved.value == SavedRecord(form, volunteer, selected, warnings)
  {
    saved, errors := None, [];
    if isPost {
      var reason := if "override_reason" in form then form["override_reason"] else "";
      if "override" in form && form["override"] == "on" && Strip(reason) == "" {
        errors := errors + [OverrideReasonRequired];
      }
      if errors == [] {
        saved := Some(SavedRecord(form, volunteer, selected, warnings));
      }
    }
  }

  // ------------------------------------------------------------------
  // The history page
  // ------------------------------------------------------------------

  /** An entry of the fixture history. */
  datatype HistoryEntry = HistoryEntry(
    volunteer: string, volunteerName: string, eventName: string, eventDescription: string,
    location: string, requiredSkills: seq<string>, urgency: string, eventDate: Date,
    capacity: string, languages: seq<string>, status: string)

  /** `(request.GET.get(k) or "").strip()`. */
  function QueryValue(q: map<string, string>, k: string): string
  {
    Strip(if k in q then q[k] else "")
  }

  /** The four `continue` tests of the loop, each skipped when its value is empty or
      missing. */
  predicate Passes(r: HistoryEntry, v: string, s: string, from: Option<Date>, to: Option<Date>)
  {
    && !(v != "" && r.volunteer != v)
    && !(s != "" && r.status != s)
    && !(from.Some? && DateLt(r.eventDate, from.value))
    && !(to.Some? && DateLt(to.value, r.eventDate))
  }

  function EntryKey(r: HistoryEntry): int
  {
    DateKey(r.eventDate)
  }

  /** The entries the loop appends, in fixture order. */
  function Kept(records: seq<HistoryEntry>, v: string, s: string, from: Option<Date>, to: Option<Date>): seq<HistoryEntry>
  {
    FilterMap(records, r => Passes(r, v, s, from, to), (r: HistoryEntry) => r)
  }

  /** The loop of `volunteer_history` over the history. */
  method FilterHistory(records: seq<HistoryEntry>, v: string, s: string, from: Option<Date>, to: Option<Date>)
    returns (rows: seq<HistoryEntry>)
    ensures rows == Kept(records, v, s, from, to)
  {
    rows := [];
    var i := 0;
    while i < |records|
      invariant 0 <= i <= |records|
      invariant rows == Kept(records[..i], v, s, from, to)
    {
      var r := records[i];
      assert records[..i + 1][..i] == records[..i];
      i := i + 1;
      if v != "" && r.volunteer != v {
        continue;
      }
      if s != "" && r.status != s {
        continue;
      }
      if from.Some? && DateLt(r.eventDate, from.value) {
        continue;
      }
      if to.Some? && DateLt(to.value, r.eventDate) {
        continue;
      }
      rows := rows + [r];
    }
    assert records[..|records|] == records;
  }

  /** `volunteer_history(request)` on the history, with the `from` and `to` bounds
      already parsed: the filtered rows sorted newest first. */
  method VolunteerHistory(q: map<string, string>, records: seq<HistoryEntry>, from: Option<Date>, to: Option<Date>)
    returns (rows: seq<HistoryEntry>)
    ensures rows == Sort(Kept(records, QueryValue(q, "volunteer"), QueryValue(q, "status"), from, to), EntryKey)
  {
    var v := QueryValue(q, "volunteer");
    var s := QueryValue(q, "status");
    rows := FilterHistory(records, v, s, from, to);
    rows := Sort(rows, EntryKey);
  }

  /** The date tests keep exactly the dates `date_in_range` accepts. */
  lemma PassesIsDateInRange(r: HistoryEntry, v: string, s: string, from: Option<Date>, to: Option<Date>)
    ensures Passes(r, v, s, from, to) <==>
      (v == "" || r.volunteer == v) && (s == "" || r.status == s) && DateInRange(r.eventDate, from, to)
  {
    if from.Some? { DateKeyOrder(r.eventDate, from.value); DateKeyOrder(from.value, r.eventDate); }
    if to.Some? { DateKeyOrder(r.eventDate, to.value); DateKeyOrder(to.value, r.eventDate); }
  }

  /** The page lists exactly the entries that match the volunteer and status exactly
      and lie within the inclusive date range, newest first, entries of the same date
      in fixture order. */
  lemma HistoryCharacterised(records: seq<HistoryEntry>, v: string, s: string, from: Option<Date>, to: Option<Date>)
    ensures var rows := Sort(Kept(records, v, s, from, to), EntryKey);
      && (forall i :: 0 <= i < |rows| ==> rows[i] in records && Passes(rows[i], v, s, from, to))
      && (forall j :: 0 <= j < |records| && Passes(records[j], v, s, from, to) ==> records[j] in rows)
      && (forall i, j :: 0 <= i < j < |rows| ==> DateLe(rows[j].eventDate, rows[i].eventDate))
      && (forall c :: KeyClass(rows, EntryKey, c) == KeyClass(Kept(records, v, s, from, to), EntryKey, c))
  {
    var kept := Kept(records, v, s, from, to);
    var rows := Sort(kept, EntryKey);
    var p := r => Passes(r, v, s, from, to);
    var f := (r: HistoryEntry) => r;
    FilterMapExactly(records, p, f);
    forall i | 0 <= i < |kept| ensures kept[i] in records && Passes(kept[i], v, s, from, to) {
      assert ImageOfKept(kept[i], records, p, f);
    }
    forall i | 0 <= i < |rows| ensures rows[i] in records && Passes(rows[i], v, s, from, to) {
      assert rows[i] in multiset(kept);
    }
    forall j | 0 <= j < |records| && Passes(records[j], v, s, from, to) ensures records[j] in rows {
      assert f(records[j]) in kept;
      assert records[j] in multiset(kept);
    }
    forall i, j | 0 <= i < j < |rows| ensures DateLe(rows[j].eventDate, rows[i].eventDate) {
      assert EntryKey(rows[i]) >= EntryKey(rows[j]);
      DateKeyOrder(rows[j].eventDate, rows[i].eventDate);
    }
  }
}
