/**
 * The JSON side of the weighted ranker: `volunteer_dict` and `event_dict`
 * render every set as a sorted list, and `match_api` looks an event up by
 * its id and returns the ranking of the fixture volunteers for it. The
 * module's own `score` and `match_volunteers` are verbatim copies of the
 * ranker's and are modelled by `WeightedRanker.Score` and
 * `WeightedRanker.MatchVolunteers`.
 */
module MatchingViews {
  import opened Wrappers
  import opened Text
  import opened Domain
  import opened WeightedRanker

  /** `xs` lists the elements of `s`, each once, in increasing order. */
  ghost predicate ListsSorted(xs: seq<string>, s: set<string>)
  {
    StrictlyIncreasing(xs) && (forall x :: x in xs <==> x in s) && |xs| == |s|
  }

  datatype VolunteerJson = VolunteerJson(
    id: int, name: string, skills: seq<string>, languages: seq<string>,
    availability: seq<string>, radiusMiles: int, certifications: seq<string>,
    constraints: seq<string>)

  datatype EventJson = EventJson(
    id: int, title: string, requiredSkills: seq<string>, languages: seq<string>,
    slots: int, timeBlocks: seq<string>, maxRadiusMiles: int, requiredCerts: seq<string>)

  /** `volunteer_dict(v)`. */
  function VolunteerDict(v: Volunteer): (d: VolunteerJson)
    ensures d.id == v.id && d.name == v.name && d.radiusMiles == v.radiusMiles
    ensures ListsSorted(d.skills, v.skills) && ListsSorted(d.languages, v.languages)
    ensures ListsSorted(d.availability, v.availability)
    ensures ListsSorted(d.certifications, v.certifications) && ListsSorted(d.constraints, v.constraints)
  {
    VolunteerJson(v.id, v.name, SortedStrings(v.skills), SortedStrings(v.languages),
                  SortedStrings(v.availability), v.radiusMiles, SortedStrings(v.certifications),
                  SortedStrings(v.constraints))
  }

  /** `event_dict(e)`. */
  function EventDict(e: Event): (d: EventJson)
    ensures d.id == e.id && d.title == e.title && d.slots == e.slots && d.maxRadiusMiles == e.maxRadiusMiles
    ensures ListsSorted(d.requiredSkills, e.requiredSkills) && ListsSorted(d.languages, e.languages)
    ensures ListsSorted(d.timeBlocks, e.timeBlocks) && ListsSorted(d.requiredCerts, e.requiredCerts)
  {
    EventJson(e.id, e.title, SortedStrings(e.requiredSkills), SortedStrings(e.languages), e.slots,
              SortedStrings(e.timeBlocks), e.maxRadiusMiles, SortedStrings(e.requiredCerts))
  }

  /** The rendering is canonical: two volunteers render alike exactly when they are equal. */
  lemma VolunteerDictInjective(v: Volunteer, w: Volunteer)
    ensures VolunteerDict(v) == VolunteerDict(w) <==> v == w
  {
    var dv, dw := VolunteerDict(v), VolunteerDict(w);
    if dv == dw {
      assert v.skills == w.skills by { SetsOfSameList(dv.skills, v.skills, w.skills); }
      assert v.languages == w.languages by { SetsOfSameList(dv.languages, v.languages, w.languages); }
      assert v.availability == w.availability by { SetsOfSameList(dv.availability, v.availability, w.availability); }
      assert v.certifications == w.certifications by { SetsOfSameList(dv.certifications, v.certifications, w.certifications); }
      assert v.constraints == w.constraints by { SetsOfSameList(dv.constraints, v.constraints, w.constraints); }
    }
  }

  lemma SetsOfSameList(xs: seq<string>, s: set<string>, t: set<string>)
    requires forall x :: x in xs <==> x in s
    requires forall x :: x in xs <==> x in t
    ensures s == t
  {
  }

  /** `i` is the first position of `events` whose id is `id`. */
  predicate FirstWithId(events: seq<Event>, id: int, i: int)
  {
    0 <= i < |events| && events[i].id == id && forall j :: 0 <= j < i ==> events[j].id != id
  }

  /** `next((e for e in EVENTS if e.id == event_id), None)`. */
  function FindEvent(events: seq<Event>, id: int): (r: Option<Event>)
    ensures r.None? <==> forall i :: 0 <= i < |events| ==> events[i].id != id
    ensures r.Some? ==> exists i :: FirstWithId(events, id, i) && events[i] == r.value
  {
    if events == [] then None
    else if events[0].id == id then
      assert FirstWithId(events, id, 0);
      Some(events[0])
    else
      var r := FindEvent(events[1..], id);
      assert r.Some? ==> exists i :: FirstWithId(events, id, i) && events[i] == r.value by {
        if r.Some? {
          var i :| FirstWithId(events[1..], id, i) && events[1..][i] == r.value;
          forall j | 0 <= j < i + 1 ensures events[j].id != id {
            if j > 0 { assert events[j] == events[1..][j - 1]; }
          }
          assert FirstWithId(events, id, i + 1);
        }
      }
      r
  }

  datatype MatchJson = MatchJson(volunteer: VolunteerJson, score: int)

  datatype MatchResponse = MatchResponse(event: EventJson, matches: seq<MatchJson>)

  /** `[{"volunteer": volunteer_dict(v), "score": s} for v, s in ranked]`. */
  function MatchesJson(ranked: seq<(Volunteer, int)>): (r: seq<MatchJson>)
    ensures |r| == |ranked|
    ensures forall i :: 0 <= i < |r| ==> r[i] == MatchJson(VolunteerDict(ranked[i].0), ranked[i].1)
  {
    if ranked == [] then [] else [MatchJson(VolunteerDict(ranked[0].0), ranked[0].1)] + MatchesJson(ranked[1..])
  }

  /** `match_api` for a request naming an `event_id`. */
  function MatchApiById(volunteers: seq<Volunteer>, events: seq<Event>, eventId: int): (r: Result<MatchResponse>)
    ensures r.Err? <==> forall i :: 0 <= i < |events| ==> events[i].id != eventId
    ensures r.Err? ==> r.message == "Unknown event_id"
    ensures r.Ok? ==> r.value.event.id == eventId
    ensures r.Ok? ==> exists i :: (
      && FirstWithId(events, eventId, i)
      && r.value.event == EventDict(events[i])
      && r.value.matches == MatchesJson(MatchVolunteers(volunteers, events[i], None)))
  {
    match FindEvent(events, eventId)
    case None => Err("Unknown event_id")
    case Some(ev) =>
      Ok(MatchResponse(EventDict(ev), MatchesJson(MatchVolunteers(volunteers, ev, None))))
  }

  /** The response lists the ranker's pairs in the ranker's order, each with its own
      positive score, at most `slots` of them. */
  lemma MatchApiFollowsRanker(volunteers: seq<Volunteer>, events: seq<Event>, eventId: int)
    requires MatchApiById(volunteers, events, eventId).Ok?
    ensures var ev := FindEvent(events, eventId).value;
      var resp := MatchApiById(volunteers, events, eventId).value;
      var ranked := MatchVolunteers(volunteers, ev, None);
      && resp.event == EventDict(ev)
      && |resp.matches| == |ranked|
      && (ev.slots >= 0 ==> |resp.matches| <= ev.slots)
      && forall i :: 0 <= i < |ranked| ==>
           resp.matches[i].volunteer == VolunteerDict(ranked[i].0)
           && resp.matches[i].score == ranked[i].1 == Score(ranked[i].0, ev) > 0
  {
    var ev := FindEvent(events, eventId).value;
    MatchedPairs(volunteers, ev, None);
  }
}
