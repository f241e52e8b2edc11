/**
 * The staff matching helpers: the maps between skill labels and skill
 * codes, the codes an event requires, the availability and skill tests
 * for a profile, and the assignment of a volunteer to an event, which
 * creates the (user, event) assignment or sets the existing one back to
 * "assigned".
 */
module ViewsMatching {
  import opened Wrappers
  import opened Calendar
  import opened Sequences

  /** `SKILL_CHOICES`: (code, label) pairs. */
  const SkillChoices: seq<(string, string)> := [
    ("first_aid", "First Aid / CPR"),
    ("teaching", "Teaching / Tutoring"),
    ("childcare", "Childcare"),
    ("elderly_care", "Elderly Care"),
    ("event_support", "Event Setup / Cleanup"),
    ("cooking", "Cooking & Meal Prep"),
    ("driving", "Driving / Transport"),
    ("it_support", "IT Support"),
    ("graphic_design", "Graphic Design"),
    ("social_media", "Social Media & Marketing"),
    ("translation", "Translation / Interpretation"),
    ("fundraising", "Fundraising"),
    ("photography", "Photography / Videography"),
    ("environment", "Environmental Conservation"),
    ("disaster_relief", "Disaster Relief")
  ]

  /** `{code: label for code, label in pairs}`: a later pair overwrites an earlier one
      with the same code. */
  function CodeMap(pairs: seq<(string, string)>): (m: map<string, string>)
    ensures forall c :: c in m <==> exists i :: 0 <= i < |pairs| && pairs[i].0 == c
  {
    if pairs == [] then map[]
    else
      var init := pairs[..|pairs| - 1];
      var m := CodeMap(init);
      assert forall i :: 0 <= i < |init| ==> init[i] == pairs[i];
      m[pairs[|pairs| - 1].0 := pairs[|pairs| - 1].1]
  }

  /** `{label: code for code, label in pairs}`. */
  function LabelMap(pairs: seq<(string, string)>): (m: map<string, string>)
    ensures forall l :: l in m <==> exists i :: 0 <= i < |pairs| && pairs[i].1 == l
  {
    if pairs == [] then map[]
    else
      var init := pairs[..|pairs| - 1];
      var m := LabelMap(init);
      assert forall i :: 0 <= i < |init| ==> init[i] == pairs[i];
      m[pairs[|pairs| - 1].1 := pairs[|pairs| - 1].0]
  }

  predicate CodesDistinct(pairs: seq<(string, string)>)
  {
    forall i, j :: 0 <= i < j < |pairs| ==> pairs[i].0 != pairs[j].0
  }

  predicate LabelsDistinct(pairs: seq<(string, string)>)
  {
    forall i, j :: 0 <= i < j < |pairs| ==> pairs[i].1 != pairs[j].1
  }

  /** With distinct codes, each code maps to its own label. */
  lemma {:induction false} CodeMapOfPairs(pairs: seq<(string, string)>)
    requires CodesDistinct(pairs)
    ensures forall i :: 0 <= i < |pairs| ==> CodeMap(pairs)[pairs[i].0] == pairs[i].1
  {
    if pairs != [] {
      var init := pairs[..|pairs| - 1];
      var last := pairs[|pairs| - 1];
      CodeMapOfPairs(init);
      var m := CodeMap(init);
      assert CodeMap(pairs) == m[last.0 := last.1];
      forall i | 0 <= i < |pairs| ensures CodeMap(pairs)[pairs[i].0] == pairs[i].1 {
        if i < |init| {
          assert init[i] == pairs[i];
          assert pairs[i].0 != last.0;
          assert m[init[i].0] == init[i].1;
        }
      }
    }
  }

  /** With distinct labels, each label maps to its own code. */
  lemma {:induction false} LabelMapOfPairs(pairs: seq<(string, string)>)
    requires LabelsDistinct(pairs)
    ensures forall i :: 0 <= i < |pairs| ==> LabelMap(pairs)[pairs[i].1] == pairs[i].0
  {
    if pairs != [] {
      var init := pairs[..|pairs| - 1];
      var last := pairs[|pairs| - 1];
      LabelMapOfPairs(init);
      var m := LabelMap(init);
      assert LabelMap(pairs) == m[last.1 := last.0];
      forall i | 0 <= i < |pairs| ensures LabelMap(pairs)[pairs[i].1] == pairs[i].0 {
        if i < |init| {
          assert init[i] == pairs[i];
          assert pairs[i].1 != last.1;
          assert m[init[i].1] == init[i].0;
        }
      }
    }
  }


  /** The two maps are mutual inverses when both codes and labels are distinct. */
  lemma MapsInverse(pairs: seq<(string, string)>)
    requires CodesDistinct(pairs) && LabelsDistinct(pairs)
    ensures forall c :: c in CodeMap(pairs) ==> CodeMap(pairs)[c] in LabelMap(pairs) && LabelMap(pairs)[CodeMap(pairs)[c]] == c
    ensures forall l :: l in LabelMap(pairs) ==> LabelMap(pairs)[l] in CodeMap(pairs) && CodeMap(pairs)[LabelMap(pairs)[l]] == l
  {
    CodeMapOfPairs(pairs);
    LabelMapOfPairs(pairs);
    forall c | c in CodeMap(pairs)
      ensures CodeMap(pairs)[c] in LabelMap(pairs) && LabelMap(pairs)[CodeMap(pairs)[c]] == c
    {
      var i :| 0 <= i < |pairs| && pairs[i].0 == c;
    }
    forall l | l in LabelMap(pairs)
      ensures LabelMap(pairs)[l] in CodeMap(pairs) && CodeMap(pairs)[LabelMap(pairs)[l]] == l
    {
      var i :| 0 <= i < |pairs| && pairs[i].1 == l;
    }
  }

  /** `_LABEL_TO_CODE`. */
  function LabelToCode(): map<string, string>
  {
    LabelMap(SkillChoices)
  }

  /** `_CODE_TO_LABEL`. */
  function CodeToLabel(): map<string, string>
  {
    CodeMap(SkillChoices)
  }

  /** The position of a code in `SKILL_CHOICES`, told by its length and first character
      alone, or -1. This key is a proof device with no counterpart in the source: on
      the fifteen fixed codes it agrees with the position (`CodeAt`), and it spares the
      verifier comparing whole strings against the list when proving the choices
      distinct. */
  function CodeIndex(s: string): int
  {
    if s == [] then -1
    else if |s| == 9 && s[0] == 'f' then 0
    else if |s| == 8 && s[0] == 't' then 1
    else if |s| == 9 && s[0] == 'c' then 2
    else if |s| == 12 && s[0] == 'e' then 3
    else if |s| == 13 && s[0] == 'e' then 4
    else if |s| == 7 && s[0] == 'c' then 5
    else if |s| == 7 && s[0] == 'd' then 6
    else if |s| == 10 && s[0] == 'i' then 7
    else if |s| == 14 && s[0] == 'g' then 8
    else if |s| == 12 && s[0] == 's' then 9
    else if |s| == 11 && s[0] == 't' then 10
    else if |s| == 11 && s[0] == 'f' then 11
    else if |s| == 11 && s[0] == 'p' then 12
    else if |s| == 11 && s[0] == 'e' then 13
    else if |s| == 15 && s[0] == 'd' then 14
    else -1
  }

  /** The position of a label in `SKILL_CHOICES`, told the same way, or -1; a proof
      device like `CodeIndex`, agreeing with the position on the fixed labels. */
  function LabelIndex(s: string): int
  {
    if s == [] then -1
    else if |s| == 15 && s[0] == 'F' then 0
    else if |s| == 19 && s[0] == 'T' then 1
    else if |s| == 9 && s[0] == 'C' then 2
    else if |s| == 12 && s[0] == 'E' then 3
    else if |s| == 21 && s[0] == 'E' then 4
    else if |s| == 19 && s[0] == 'C' then 5
    else if |s| == 19 && s[0] == 'D' then 6
    else if |s| == 10 && s[0] == 'I' then 7
    else if |s| == 14 && s[0] == 'G' then 8
    else if |s| == 24 && s[0] == 'S' then 9
    else if |s| == 28 && s[0] == 'T' then 10
    else if |s| == 11 && s[0] == 'F' then 11
    else if |s| == 25 && s[0] == 'P' then 12
    else if |s| == 26 && s[0] == 'E' then 13
    else if |s| == 15 && s[0] == 'D' then 14
    else -1
  }

  lemma CodeAt(i: int)
    requires 0 <= i < |SkillChoices|
    ensures CodeIndex(SkillChoices[i].0) == i
  {
    if i == 0 { assert SkillChoices[0].0[0] == 'f'; }
    else if i == 1 { assert SkillChoices[1].0[0] == 't'; }
    else if i == 2 { assert SkillChoices[2].0[0] == 'c'; }
    else if i == 3 { assert SkillChoices[3].0[0] == 'e'; }
    else if i == 4 { assert SkillChoices[4].0[0] == 'e'; }
    else if i == 5 { assert SkillChoices[5].0[0] == 'c'; }
    else if i == 6 { assert SkillChoices[6].0[0] == 'd'; }
    else if i == 7 { assert SkillChoices[7].0[0] == 'i'; }
    else if i == 8 { assert SkillChoices[8].0[0] == 'g'; }
    else if i == 9 { assert SkillChoices[9].0[0] == 's'; }
    else if i == 10 { assert SkillChoices[10].0[0] == 't'; }
    else if i == 11 { assert SkillChoices[11].0[0] == 'f'; }
    else if i == 12 { assert SkillChoices[12].0[0] == 'p'; }
    else if i == 13 { assert SkillChoices[13].0[0] == 'e'; }
    else if i == 14 { assert SkillChoices[14].0[0] == 'd'; }
  }

  lemma LabelAt(i: int)
    requires 0 <= i < |SkillChoices|
    ensures LabelIndex(SkillChoices[i].1) == i
  {
    if i == 0 { assert SkillChoices[0].1[0] == 'F'; }
    else if i == 1 { assert SkillChoices[1].1[0] == 'T'; }
    else if i == 2 { assert SkillChoices[2].1[0] == 'C'; }
    else if i == 3 { assert SkillChoices[3].1[0] == 'E'; }
    else if i == 4 { assert SkillChoices[4].1[0] == 'E'; }
    else if i == 5 { assert SkillChoices[5].1[0] == 'C'; }
    else if i == 6 { assert SkillChoices[6].1[0] == 'D'; }
    else if i == 7 { assert SkillChoices[7].1[0] == 'I'; }
    else if i == 8 { assert SkillChoices[8].1[0] == 'G'; }
    else if i == 9 { assert SkillChoices[9].1[0] == 'S'; }
    else if i == 10 { assert SkillChoices[10].1[0] == 'T'; }
    else if i == 11 { assert SkillChoices[11].1[0] == 'F'; }
    else if i == 12 { assert SkillChoices[12].1[0] == 'P'; }
    else if i == 13 { assert SkillChoices[13].1[0] == 'E'; }
    else if i == 14 { assert SkillChoices[14].1[0] == 'D'; }
  }

  /** No two skill codes and no two skill labels are equal, and no code is empty. */
  lemma SkillChoicesDistinct()
    ensures CodesDistinct(SkillChoices) && LabelsDistinct(SkillChoices)
    ensures forall i :: 0 <= i < |SkillChoices| ==> SkillChoices[i].0 != ""
  {
    forall i | 0 <= i < |SkillChoices| ensures CodeIndex(SkillChoices[i].0) == i && LabelIndex(SkillChoices[i].1) == i {
      CodeAt(i);
      LabelAt(i);
    }
  }

  /** The skill codes and labels are all distinct, every code is non-empty, and so the
      two maps over `SKILL_CHOICES` are mutual inverses. */
  lemma SkillMapsInverse()
    ensures forall c :: c in CodeToLabel() ==> CodeToLabel()[c] in LabelToCode() && LabelToCode()[CodeToLabel()[c]] == c
    ensures forall l :: l in LabelToCode() ==> LabelToCode()[l] in CodeToLabel() && CodeToLabel()[LabelToCode()[l]] == l
    ensures forall l :: l in LabelToCode() ==> LabelToCode()[l] != ""
  {
    SkillChoicesDistinct();
    MapsInverse(SkillChoices);
    LabelMapOfPairs(SkillChoices);
  }

  /** `_LABEL_TO_CODE.get(label)` is a non-empty code. */
  predicate KnownLabel(name: string)
  {
    name in LabelToCode() && LabelToCode()[name] != ""
  }

  function CodeOf(name: string): string
  {
    if name in LabelToCode() then LabelToCode()[name] else ""
  }

  /** `_event_required_codes(event)` for the names of the event's required skills:
      the codes of the labels that have one, in the order of the labels. */
  function EventRequiredCodes(labels: seq<string>): seq<string>
  {
    FilterMap(labels, KnownLabel, CodeOf)
  }

  /** Every code is the code of one of the labels, and there are no more codes than
      labels. */
  lemma EventRequiredCodesSound(labels: seq<string>)
    ensures |EventRequiredCodes(labels)| <= |labels|
    ensures forall i :: 0 <= i < |EventRequiredCodes(labels)| ==>
      EventRequiredCodes(labels)[i] in CodeToLabel() && CodeToLabel()[EventRequiredCodes(labels)[i]] in labels
  {
    var codes := EventRequiredCodes(labels);
    SkillMapsInverse();
    FilterMapExactly(labels, KnownLabel, CodeOf);
    forall i | 0 <= i < |codes| ensures codes[i] in CodeToLabel() && CodeToLabel()[codes[i]] in labels {
      assert ImageOfKept(codes[i], labels, KnownLabel, CodeOf);
      var j :| 0 <= j < |labels| && KnownLabel(labels[j]) && codes[i] == CodeOf(labels[j]);
      assert CodeToLabel()[codes[i]] == labels[j];
    }
  }

  /** Every label with a code contributes it. */
  lemma EventRequiredCodesComplete(labels: seq<string>)
    ensures forall j :: 0 <= j < |labels| && labels[j] in LabelToCode() ==> LabelToCode()[labels[j]] in EventRequiredCodes(labels)
  {
    SkillMapsInverse();
    FilterMapExactly(labels, KnownLabel, CodeOf);
  }

  /** Labels without a code are dropped, so labels none of which is known give no
      codes. */
  lemma EventRequiredCodesUnknownDropped(labels: seq<string>)
    ensures (forall j :: 0 <= j < |labels| ==> labels[j] !in LabelToCode()) ==> EventRequiredCodes(labels) == []
  {
    var codes := EventRequiredCodes(labels);
    if codes != [] {
      FilterMapExactly(labels, KnownLabel, CodeOf);
      assert ImageOfKept(codes[0], labels, KnownLabel, CodeOf);
      var j :| 0 <= j < |labels| && KnownLabel(labels[j]) && codes[0] == CodeOf(labels[j]);
      assert labels[j] in LabelToCode();
    }
  }

  /** When all labels are known the codes come one for one in the order of the labels. */
  lemma EventRequiredCodesAllKnown(labels: seq<string>)
    requires forall j :: 0 <= j < |labels| ==> labels[j] in LabelToCode()
    ensures |EventRequiredCodes(labels)| == |labels|
    ensures forall i :: 0 <= i < |labels| ==> EventRequiredCodes(labels)[i] == LabelToCode()[labels[i]]
  {
    SkillMapsInverse();
    FilterMapAllKept(labels, KnownLabel, CodeOf);
  }

  /** `_available_on(profile, event)`: the availability list is not empty and holds the
      event's ISO date. */
  function AvailableOn(availability: seq<string>, eventDate: Date): (r: bool)
    ensures r <==> IsoFormat(eventDate) in availability
  {
    |availability| > 0 && IsoFormat(eventDate) in availability
  }

  /** `_skill_overlap(profile, required_codes)`; `profile.skills` may be missing. */
  function SkillOverlap(skills: Option<seq<string>>, requiredCodes: seq<string>): (r: bool)
    ensures requiredCodes == [] ==> r
    ensures requiredCodes != [] ==> (r <==> skills.Some? && exists c :: c in requiredCodes && c in skills.value)
  {
    if requiredCodes == [] then true
    else
      var mine := set c | c in skills.GetOr([]);
      var required := set c | c in requiredCodes;
      assert forall c :: c in mine * required <==> c in requiredCodes && c in skills.GetOr([]);
      |mine * required| > 0
  }

  const Assigned := "assigned"

  /** An assignment row; the fields besides `status` keep the model's defaults unless
      set elsewhere. */
  datatype Assignment = Assignment(
    volunteerName: string, eventTitle: string, status: string, notify: bool, override: bool)

  /** The row `get_or_create` creates: the model defaults with `status` "assigned". */
  const NewAssignment := Assignment("", "", Assigned, false, false)

  /** The rows after assigning `user` to `event`. */
  function Upsert(rows: map<(int, int), Assignment>, user: int, event: int): map<(int, int), Assignment>
  {
    var key := (user, event);
    if key in rows then rows[key := rows[key].(status := Assigned)] else rows[key := NewAssignment]
  }

  /** Afterwards the pair has an assignment with status "assigned", every other pair
      keeps its row, a present row keeps its other fields, and exactly the one key is
      added when it was missing. */
  lemma UpsertAssigns(rows: map<(int, int), Assignment>, user: int, event: int)
    ensures var r := Upsert(rows, user, event);
      && (user, event) in r && r[(user, event)].status == Assigned
      && r.Keys == rows.Keys + {(user, event)}
      && (forall k :: k in rows && k != (user, event) ==> r[k] == rows[k])
      && ((user, event) in rows ==> r[(user, event)] == rows[(user, event)].(status := Assigned))
      && ((user, event) !in rows ==> r[(user, event)] == NewAssignment)
  {
  }

  /** Assigning twice is assigning once: repeating the request adds no second row. */
  lemma UpsertIdempotent(rows: map<(int, int), Assignment>, user: int, event: int)
    ensures Upsert(Upsert(rows, user, event), user, event) == Upsert(rows, user, event)
    ensures |Upsert(rows, user, event).Keys| == |rows.Keys + {(user, event)}|
  {
    var once := Upsert(rows, user, event);
    assert once[(user, event)].(status := Assigned) == once[(user, event)];
  }

  /** Assignments of different pairs do not interfere. */
  lemma UpsertCommutes(rows: map<(int, int), Assignment>, u1: int, e1: int, u2: int, e2: int)
    ensures Upsert(Upsert(rows, u1, e1), u2, e2) == Upsert(Upsert(rows, u2, e2), u1, e1)
  {
    if (u1, e1) != (u2, e2) {
      var a := Upsert(Upsert(rows, u1, e1), u2, e2);
      var b := Upsert(Upsert(rows, u2, e2), u1, e1);
      assert a.Keys == b.Keys;
      forall k | k in a.Keys ensures a[k] == b[k] {
      }
    }
  }

  /** The assignments, one row per (user, event) pair. */
  class AssignmentStore {
    var rows: map<(int, int), Assignment>

    constructor ()
      ensures rows == map[]
    {
      rows := map[];
    }

    /** The persistence step of `assign_volunteer`: `get_or_create` with the default
        status, and, when the row existed, its status set back to "assigned". */
    method Assign(user: int, event: int) returns (created: bool)
      modifies this
      ensures created <==> (user, event) !in old(rows)
      ensures rows == Upsert(old(rows), user, event)
    {
      var key := (user, event);
      if key in rows {
        var row := rows[key];
        created := false;
        row := row.(status := Assigned);
        rows := rows[key := row];
      } else {
        created := true;
        rows := rows[key := NewAssignment];
      }
    }
  }
}
