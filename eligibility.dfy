/**
 * The rule-based matcher over loosely typed records: a volunteer is
 * eligible for an event when it has every required skill, shares a
 * language when the event names any, the event has a free slot, it lives
 * strictly inside the event's radius when one is set, and one of its
 * availability windows overlaps one of the event's time blocks when the
 * event lists any. Eligible volunteers are ranked by the number of shared
 * skills and languages, highest first, ties in input order.
 *
 * A record is a dictionary or an object read through `_val(obj, key,
 * default)`; a key that is absent reads as its default. Lists keep their
 * order (`list(...)` copies them); set operations use their elements.
 * Instants are integers (for instance seconds since some epoch), so that
 * `datetime` comparison is integer comparison.
 */
module Eligibility {
  import opened Wrappers
  import opened StableSort
  import opened Sequences

  /** A `{"start": ..., "end": ...}` window. */
  datatype Interval = Interval(start: int, end: int)

  /** A `{"lat": ..., "lng": ...}` location. */
  datatype Point = Point(lat: real, lng: real)

  /** The default location `{"lat": 0.0, "lng": 0.0}`. */
  const Origin := Point(0.0, 0.0)

  /** A volunteer record; `None` is an absent key, an empty list an absent or empty list. */
  datatype Volunteer = Volunteer(
    id: Option<int>, fullName: Option<string>, name: Option<string>,
    skills: seq<string>, languages: seq<string>, availability: seq<Interval>,
    location: Option<Point>)

  /** An event record, read the same way. */
  datatype Event = Event(
    id: Option<int>, title: Option<string>, requiredSkills: seq<string>,
    languages: seq<string>, slots: Option<int>, timeBlocks: seq<Interval>,
    maxRadiusMiles: Option<real>, location: Option<Point>)

  /** `time_overlap(a, b)`: neither window ends before or when the other starts. */
  predicate TimeOverlap(a: Interval, b: Interval)
  {
    !(a.end <= b.start || b.end <= a.start)
  }

  lemma TimeOverlapIff(a: Interval, b: Interval)
    ensures TimeOverlap(a, b) <==> a.start < b.end && b.start < a.end
    ensures TimeOverlap(a, b) <==> TimeOverlap(b, a)
  {
  }

  /** Windows that only touch (one ends when the other starts) do not overlap. */
  lemma TouchingWindowsDoNotOverlap(a: Interval, b: Interval)
    requires a.end == b.start
    ensures !TimeOverlap(a, b) && !TimeOverlap(b, a)
  {
  }

  /** A non-empty window overlaps every window that contains it. */
  lemma ContainedWindowOverlaps(a: Interval, b: Interval)
    requires a.start < a.end && b.start <= a.start && a.end <= b.end
    ensures TimeOverlap(a, b)
  {
  }

  /** The squared distance of two locations. */
  function SquaredDistance(p: Point, q: Point): (d: real)
    ensures d >= 0.0
  {
    (p.lat - q.lat) * (p.lat - q.lat) + (p.lng - q.lng) * (p.lng - q.lng)
  }

  /** `hypot(dlat, dlng) >= r`, decided without a square root: the distance is
      never negative, so a radius of zero or less always excludes. */
  predicate OutsideRadius(p: Point, q: Point, r: real)
  {
    r <= 0.0 || SquaredDistance(p, q) >= r * r
  }

  /** `OutsideRadius` is the comparison of the true distance `h` (the non-negative
      square root of the squared distance) with the radius. */
  lemma OutsideRadiusIsDistanceTest(p: Point, q: Point, r: real, h: real)
    requires h >= 0.0 && h * h == SquaredDistance(p, q)
    ensures OutsideRadius(p, q, r) <==> h >= r
  {
    if r > 0.0 {
      if h >= r {
        assert h * h >= r * h >= r * r;
      } else {
        assert h * (r - h) >= 0.0;
        assert r * (r - h) > 0.0;
        assert h * h < r * r;
      }
    }
  }

  /** Some time block of the event overlaps some availability window. */
  predicate AnyOverlap(blocks: seq<Interval>, windows: seq<Interval>)
  {
    exists i, j :: 0 <= i < |blocks| && 0 <= j < |windows| && TimeOverlap(blocks[i], windows[j])
  }

  /** `matches_event(v, e)`: the checks in the source's order, each returning early. */
  function MatchesEvent(v: Volunteer, e: Event): (b: bool)
    ensures b <==>
      && Elems(e.requiredSkills) <= Elems(v.skills)
      && (e.languages != [] ==> Elems(e.languages) * Elems(v.languages) != {})
      && e.slots.GetOr(1) > 0
      && (e.maxRadiusMiles.Some? ==>
            !OutsideRadius(v.location.GetOr(Origin), e.location.GetOr(Origin), e.maxRadiusMiles.value))
      && (e.timeBlocks != [] ==> AnyOverlap(e.timeBlocks, v.availability))
  {
    if !(Elems(e.requiredSkills) <= Elems(v.skills)) then false
    else if e.languages != [] && Elems(e.languages) * Elems(v.languages) == {} then false
    else if e.slots.GetOr(1) <= 0 then false
    else if e.maxRadiusMiles.Some?
         && OutsideRadius(v.location.GetOr(Origin), e.location.GetOr(Origin), e.maxRadiusMiles.value) then false
    else if e.timeBlocks != [] && !AnyOverlap(e.timeBlocks, v.availability) then false
    else true
  }

  /** An event with time blocks excludes every volunteer with no availability. */
  lemma NoAvailabilityExcluded(v: Volunteer, e: Event)
    requires e.timeBlocks != [] && v.availability == []
    ensures !MatchesEvent(v, e)
  {
  }

  /** An event that asks for nothing (no skills, languages, radius or blocks, slots
      absent or positive) accepts every volunteer. */
  lemma UnconstrainedEventAcceptsAll(v: Volunteer, e: Event)
    requires e.requiredSkills == [] && e.languages == [] && e.timeBlocks == []
    requires e.maxRadiusMiles == None && e.slots.GetOr(1) > 0
    ensures MatchesEvent(v, e)
  {
    assert Elems(e.requiredSkills) == {};
  }

  /** `score(v, e)`: shared required skills plus shared languages. The source
      returns it as a float; the value is a whole number either way. */
  function Score(v: Volunteer, e: Event): (s: int)
    ensures 0 <= s <= |Elems(e.requiredSkills)| + |Elems(e.languages)|
  {
    IntersectionBound(Elems(e.requiredSkills), Elems(v.skills));
    IntersectionBound(Elems(e.languages), Elems(v.languages));
    |Elems(e.requiredSkills) * Elems(v.skills)| + |Elems(e.languages) * Elems(v.languages)|
  }

  lemma IntersectionBound(a: set<string>, b: set<string>)
    ensures |a * b| <= |a|
  {
    SubsetCard(a * b, a);
  }

  /** An eligible volunteer scores every required skill, and one more when the
      event names languages. */
  lemma EligibleScore(v: Volunteer, e: Event)
    requires MatchesEvent(v, e)
    ensures Score(v, e) >= |Elems(e.requiredSkills)|
    ensures e.languages != [] ==> Score(v, e) >= |Elems(e.requiredSkills)| + 1
  {
    assert Elems(e.requiredSkills) * Elems(v.skills) == Elems(e.requiredSkills);
    if e.languages != [] {
      var x :| x in Elems(e.languages) * Elems(v.languages);
      SubsetCard({x}, Elems(e.languages) * Elems(v.languages));
    }
  }

  function PairScore(p: (Volunteer, int)): int
  {
    p.1
  }

  /** `[(v, score(v, event)) for v in volunteers if matches_event(v, event)]`. */
  function Eligible(vols: seq<Volunteer>, e: Event): (r: seq<(Volunteer, int)>)
    ensures |r| <= |vols|
    ensures forall i :: 0 <= i < |r| ==> r[i].0 in vols && MatchesEvent(r[i].0, e) && r[i].1 == Score(r[i].0, e)
    ensures forall i :: 0 <= i < |vols| && MatchesEvent(vols[i], e) ==> (vols[i], Score(vols[i], e)) in r
  {
    var p := v => MatchesEvent(v, e);
    var f := v => (v, Score(v, e));
    var r := FilterMap(vols, p, f);
    assert forall i :: 0 <= i < |r| ==> r[i].0 in vols && MatchesEvent(r[i].0, e) && r[i].1 == Score(r[i].0, e) by {
      FilterMapExactly(vols, p, f);
      forall i | 0 <= i < |r| ensures r[i].0 in vols && MatchesEvent(r[i].0, e) && r[i].1 == Score(r[i].0, e) {
        assert ImageOfKept(r[i], vols, p, f);
        var j :| 0 <= j < |vols| && p(vols[j]) && r[i] == f(vols[j]);
      }
    }
    FilterMapExactly(vols, p, f);
    r
  }

  /** A volunteer added at the end of the list is added at the end of the eligible
      pairs when it matches. */
  lemma EligibleSnoc(vols: seq<Volunteer>, v: Volunteer, e: Event)
    ensures Eligible(vols + [v], e) == Eligible(vols, e) + (if MatchesEvent(v, e) then [(v, Score(v, e))] else [])
  {
    assert (vols + [v])[..|vols|] == vols;
  }

  /** `match_volunteers(volunteers, event)`: the eligible pairs, stably sorted by
      descending score. */
  function MatchVolunteers(vols: seq<Volunteer>, e: Event): seq<(Volunteer, int)>
  {
    Sort(Eligible(vols, e), PairScore)
  }

  /** The ranking holds exactly the eligible volunteers, each with its score, best
      first; volunteers with equal scores stay in the order of the input list. */
  lemma MatchedExactlyEligible(vols: seq<Volunteer>, e: Event)
    ensures var r := MatchVolunteers(vols, e);
      && SortedDesc(r, PairScore)
      && (forall i :: 0 <= i < |r| ==> r[i].0 in vols && MatchesEvent(r[i].0, e) && r[i].1 == Score(r[i].0, e))
      && (forall i :: 0 <= i < |vols| && MatchesEvent(vols[i], e) ==> (vols[i], Score(vols[i], e)) in r)
      && (forall c :: KeyClass(r, PairScore, c) == KeyClass(Eligible(vols, e), PairScore, c))
  {
    var el := Eligible(vols, e);
    var r := MatchVolunteers(vols, e);
    assert multiset(r) == multiset(el);
    forall i | 0 <= i < |r|
      ensures r[i].0 in vols && MatchesEvent(r[i].0, e) && r[i].1 == Score(r[i].0, e)
    {
      assert r[i] in multiset(el);
      var j :| 0 <= j < |el| && el[j] == r[i];
    }
    forall i | 0 <= i < |vols| && MatchesEvent(vols[i], e)
      ensures (vols[i], Score(vols[i], e)) in r
    {
      assert (vols[i], Score(vols[i], e)) in multiset(el);
    }
  }

  /** `volunteer_to_dict(v)`. */
  datatype VolunteerDict = VolunteerDict(
    id: Option<int>, fullName: Option<string>, skills: seq<string>, languages: seq<string>,
    location: Point, availability: seq<Interval>)

  /** `v.full_name or v.name`: an absent or empty full name falls back to the name. */
  function DisplayName(v: Volunteer): (n: Option<string>)
    ensures v.fullName.Some? && v.fullName.value != "" ==> n == v.fullName
    ensures v.fullName == None || v.fullName == Some("") ==> n == v.name
  {
    if v.fullName.Some? && v.fullName.value != "" then v.fullName else v.name
  }

  function VolunteerToDict(v: Volunteer): (d: VolunteerDict)
    ensures d.id == v.id && d.fullName == DisplayName(v)
    ensures d.skills == v.skills && d.languages == v.languages && d.availability == v.availability
    ensures d.location == v.location.GetOr(Origin)
  {
    VolunteerDict(v.id, DisplayName(v), v.skills, v.languages, v.location.GetOr(Origin), v.availability)
  }

  /** `event_to_dict(e)`. */
  datatype EventDict = EventDict(
    id: Option<int>, title: Option<string>, requiredSkills: seq<string>, languages: seq<string>,
    slots: int, timeBlocks: seq<Interval>, maxRadiusMiles: Option<real>, location: Point)

  function EventToDict(e: Event): (d: EventDict)
    ensures d.id == e.id && d.title == e.title && d.maxRadiusMiles == e.maxRadiusMiles
    ensures d.requiredSkills == e.requiredSkills && d.languages == e.languages && d.timeBlocks == e.timeBlocks
    ensures d.slots == e.slots.GetOr(0) && d.location == e.location.GetOr(Origin)
  {
    EventDict(e.id, e.title, e.requiredSkills, e.languages, e.slots.GetOr(0), e.timeBlocks,
              e.maxRadiusMiles, e.location.GetOr(Origin))
  }

  /** The two readers default an absent `slots` differently: the matcher treats it
      as one free slot, the rendering shows zero. */
  lemma AbsentSlotsDefaultsDiffer(v: Volunteer, e: Event)
    requires e.slots == None
    ensures EventToDict(e).slots == 0
    ensures MatchesEvent(v, e) == MatchesEvent(v, e.(slots := Some(1)))
  {
  }

  /** Rendering an event loses nothing the matcher reads, except an absent `slots`
      and an absent location (which both readers default to the origin). */
  lemma EventToDictKeepsMatching(v: Volunteer, e: Event)
    requires e.slots.Some?
    ensures var d := EventToDict(e);
      MatchesEvent(v, e) == MatchesEvent(v, Event(d.id, d.title, d.requiredSkills, d.languages,
                                                  Some(d.slots), d.timeBlocks, d.maxRadiusMiles, Some(d.location)))
  {
  }

  // Records from the module's tests.

  const Morning := Interval(9, 12)
  const Afternoon := Interval(38, 42)

  /** A volunteer at the origin with two availability windows, hours 9-12 and 38-42. */
  const Tester := Volunteer(None, None, None, ["first_aid", "lifting"], ["english", "spanish"],
                            [Morning, Afternoon], Some(Origin))

  /** The tests' event template: five slots, radius 10 at the origin, no other demands. */
  const Template := Event(None, None, [], [], Some(5), [], Some(10.0), Some(Origin))

  lemma SkillSubsetRequired()
    ensures MatchesEvent(Tester, Template.(requiredSkills := ["first_aid"]))
    ensures !MatchesEvent(Tester, Template.(requiredSkills := ["first_aid", "cpr"]))
  {
    assert "cpr" in Elems(["first_aid", "cpr"]) && "cpr" !in Elems(Tester.skills);
  }

  lemma LanguageIntersection()
    ensures MatchesEvent(Tester, Template.(languages := ["english"]))
    ensures !MatchesEvent(Tester, Template.(languages := ["vietnamese"]))
  {
    assert Elems(Tester.skills) >= {};
    assert "english" in Elems(["english"]) * Elems(Tester.languages);
    assert Elems(["vietnamese"]) * Elems(Tester.languages) == {};
  }

  lemma SlotsPositive()
    ensures MatchesEvent(Tester, Template.(slots := Some(1)))
    ensures !MatchesEvent(Tester, Template.(slots := Some(0)))
  {
  }

  /** At distance 0.5 a radius of 0.5 excludes and a radius of 1.0 admits. */
  lemma RadiusBoundaryExcludes()
    ensures !MatchesEvent(Tester, Template.(maxRadiusMiles := Some(0.5), location := Some(Point(0.3, 0.4))))
    ensures MatchesEvent(Tester, Template.(maxRadiusMiles := Some(1.0), location := Some(Point(0.3, 0.4))))
  {
    assert SquaredDistance(Origin, Point(0.3, 0.4)) == 0.25;
  }

  lemma TimeOverlapRequired()
    ensures MatchesEvent(Tester, Template.(timeBlocks := [Interval(10, 11)]))
    ensures !MatchesEvent(Tester, Template.(timeBlocks := [Interval(12, 13)]))
    ensures MatchesEvent(Tester, Template.(timeBlocks := [Interval(7, 8), Interval(40, 41)]))
  {
    assert TimeOverlap([Interval(10, 11)][0], Tester.availability[0]);
    assert TimeOverlap([Interval(7, 8), Interval(40, 41)][1], Tester.availability[1]);
  }

  /** The two volunteers of the tie-breaking test, and its event. */
  const TieFirst := Volunteer(Some(1), Some("A"), None, ["cpr"], ["english"], [], Some(Origin))
  const TieSecond := Volunteer(Some(2), Some("B"), None, ["cpr", "lifting"], ["english"], [], Some(Origin))
  const TieEvent := Event(None, None, ["cpr"], ["english"], Some(1), [], None, Some(Origin))

  /** Both volunteers match the event and score 2: one shared skill, one shared language. */
  lemma TieScores()
    ensures Score(TieFirst, TieEvent) == 2 && Score(TieSecond, TieEvent) == 2
    ensures MatchesEvent(TieFirst, TieEvent) && MatchesEvent(TieSecond, TieEvent)
  {
    assert Elems(TieEvent.requiredSkills) == {"cpr"} && Elems(TieEvent.languages) == {"english"};
    assert Elems(TieFirst.skills) == {"cpr"} && Elems(TieSecond.skills) == {"cpr", "lifting"};
    assert Elems(TieFirst.languages) == {"english"} && Elems(TieSecond.languages) == {"english"};
    assert {"cpr"} * {"cpr", "lifting"} == {"cpr"};
  }

  /** Two volunteers with equal scores come back in input order, so the first
      listed is ranked first. */
  lemma EqualScoresRankFirstListedFirst()
    ensures MatchVolunteers([TieFirst, TieSecond], TieEvent) == [(TieFirst, 2), (TieSecond, 2)]
  {
    TieScores();
    EligibleSnoc([], TieFirst, TieEvent);
    EligibleSnoc([TieFirst], TieSecond, TieEvent);
    assert [] + [TieFirst] == [TieFirst] && [TieFirst] + [TieSecond] == [TieFirst, TieSecond];
    SortOfSorted([(TieFirst, 2), (TieSecond, 2)], PairScore);
  }
}
