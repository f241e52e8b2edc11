/**
 * The weighted scorer and ranker over `Volunteer`/`Event` records: every
 * volunteer is scored, the scored pairs are stable-sorted by descending
 * score, pairs scoring 0 or less are dropped, and the list is cut to
 * `k or ev.slots` entries.
 */
module WeightedRanker {
  import opened Wrappers
  import opened Domain
  import opened StableSort
  import opened Sequences

  const NoHeavyLifting := "No heavy lifting"
  const Lifting := "Lifting"

  /** The penalty for each hard failure. */
  const HardFail := 100

  /** Skills are worth 3, languages 2, sharing a time token 2, being within range 1
      (out of range costs 5); a missing certification and a heavy-lifting conflict
      each cost `HardFail`. */
  function Score(v: Volunteer, e: Event): int
  {
    3 * |v.skills * e.requiredSkills|
    + 2 * |v.languages * e.languages|
    + (if v.availability * e.timeBlocks != {} then 2 else 0)
    + (if v.radiusMiles <= e.maxRadiusMiles then 1 else -5)
    - (if e.requiredCerts - v.certifications != {} then HardFail else 0)
    - (if NoHeavyLifting in v.constraints && Lifting in e.requiredSkills then HardFail else 0)
  }

  /** The score before the hard-fail penalties. */
  function Fitness(v: Volunteer, e: Event): int
  {
    3 * |v.skills * e.requiredSkills|
    + 2 * |v.languages * e.languages|
    + (if v.availability * e.timeBlocks != {} then 2 else 0)
    + (if v.radiusMiles <= e.maxRadiusMiles then 1 else -5)
  }

  predicate MissingCertification(v: Volunteer, e: Event)
  {
    e.requiredCerts - v.certifications != {}
  }

  predicate LiftingConflict(v: Volunteer, e: Event)
  {
    NoHeavyLifting in v.constraints && Lifting in e.requiredSkills
  }

  /** The two penalties are independent: each subtracts exactly 100, so both together subtract 200. */
  lemma PenaltiesIndependent(v: Volunteer, e: Event)
    ensures Score(v, e) == Fitness(v, e)
      - (if MissingCertification(v, e) then 100 else 0)
      - (if LiftingConflict(v, e) then 100 else 0)
    ensures MissingCertification(v, e) && LiftingConflict(v, e) ==> Score(v, e) == Fitness(v, e) - 200
    ensures !MissingCertification(v, e) && !LiftingConflict(v, e) ==> Score(v, e) == Fitness(v, e)
  {
  }

  lemma IntersectionBound(a: set<string>, b: set<string>)
    ensures |a * b| <= |b|
  {
    assert a * b <= b;
    SubsetCard(a * b, b);
  }

  /** The score lies between -205 and 3 per required skill plus 2 per event language plus 3. */
  lemma ScoreBounds(v: Volunteer, e: Event)
    ensures -205 <= Score(v, e)
    ensures Score(v, e) <= 3 * |e.requiredSkills| + 2 * |e.languages| + 3
  {
    IntersectionBound(v.skills, e.requiredSkills);
    IntersectionBound(v.languages, e.languages);
  }

  /** Having more skills never lowers the score. */
  lemma ScoreMonotoneInSkills(v: Volunteer, e: Event, skills: set<string>)
    requires v.skills <= skills
    ensures Score(v, e) <= Score(v.(skills := skills), e)
  {
    assert v.skills * e.requiredSkills <= skills * e.requiredSkills;
    SubsetCard(v.skills * e.requiredSkills, skills * e.requiredSkills);
  }

  /** Having more certifications never lowers the score. */
  lemma ScoreMonotoneInCertifications(v: Volunteer, e: Event, certs: set<string>)
    requires v.certifications <= certs
    ensures Score(v, e) <= Score(v.(certifications := certs), e)
  {
    if e.requiredCerts - certs != {} {
      var x :| x in e.requiredCerts - certs;
      assert x in e.requiredCerts - v.certifications;
    }
  }

  /** Gaining one more required skill adds exactly 3. */
  lemma ScoreAddRequiredSkill(v: Volunteer, e: Event, s: string)
    requires s in e.requiredSkills && s !in v.skills
    ensures Score(v.(skills := v.skills + {s}), e) == Score(v, e) + 3
  {
    assert (v.skills + {s}) * e.requiredSkills == v.skills * e.requiredSkills + {s};
  }

  /** Holding every required certification and having no lifting conflict, the
      score carries no penalty, and it is at least -5. */
  lemma NoPenaltyScoreAtLeastMinusFive(v: Volunteer, e: Event)
    requires e.requiredCerts <= v.certifications && !LiftingConflict(v, e)
    ensures Score(v, e) == Fitness(v, e) >= -5
  {
    assert e.requiredCerts - v.certifications == {};
  }

  /** A missing certification alone pushes the score below zero unless the event
      offers a fitness above 100. */
  lemma MissingCertificationDropsOut(v: Volunteer, e: Event)
    requires MissingCertification(v, e)
    requires 3 * |e.requiredSkills| + 2 * |e.languages| + 3 <= 100
    ensures Score(v, e) <= 0
  {
    IntersectionBound(v.skills, e.requiredSkills);
    IntersectionBound(v.languages, e.languages);
  }

  // ------------------------------------------------------------------
  // Ranking
  // ------------------------------------------------------------------

  /** `(v, score(v, ev)) for v in vols`. */
  function Scored(vols: seq<Volunteer>, e: Event): (r: seq<(Volunteer, int)>)
    ensures |r| == |vols|
    ensures forall i :: 0 <= i < |r| ==> r[i] == (vols[i], Score(vols[i], e))
  {
    if vols == [] then [] else [(vols[0], Score(vols[0], e))] + Scored(vols[1..], e)
  }

  function PairScore(p: (Volunteer, int)): int
  {
    p.1
  }

  /** `[pair for pair in ranked if pair[1] > 0]`. */
  function Positive(s: seq<(Volunteer, int)>): (r: seq<(Volunteer, int)>)
    ensures |r| <= |s|
    ensures forall i :: 0 <= i < |r| ==> r[i].1 > 0
    ensures multiset(r) <= multiset(s)
  {
    if s == [] then []
    else
      assert s == [s[0]] + s[1..];
      if s[0].1 > 0 then [s[0]] + Positive(s[1..])
      else Positive(s[1..])
  }

  /** Every positive-score pair of `s` survives the filter. */
  lemma {:induction false} PositiveKeeps(s: seq<(Volunteer, int)>, i: int)
    requires 0 <= i < |s| && s[i].1 > 0
    ensures s[i] in Positive(s)
  {
    if i > 0 {
      PositiveKeeps(s[1..], i - 1);
    }
  }

  /** Filtering never lets a score above a bound in. */
  lemma {:induction false} PositiveBounded(s: seq<(Volunteer, int)>, b: int)
    requires forall i :: 0 <= i < |s| ==> s[i].1 <= b
    ensures forall i :: 0 <= i < |Positive(s)| ==> Positive(s)[i].1 <= b
  {
    if s != [] {
      PositiveBounded(s[1..], b);
    }
  }

  /** Filtering keeps every positive-score class as it was and empties the others. */
  lemma {:induction false} PositiveClasses(s: seq<(Volunteer, int)>, c: int)
    ensures KeyClass(Positive(s), PairScore, c) == if c > 0 then KeyClass(s, PairScore, c) else []
  {
    if s != [] {
      PositiveClasses(s[1..], c);
      if s[0].1 > 0 {
        assert ([s[0]] + Positive(s[1..]))[1..] == Positive(s[1..]);
      }
    }
  }

  /** A filtered sorted list is still sorted. */
  lemma {:induction false} PositiveSorted(s: seq<(Volunteer, int)>)
    requires SortedDesc(s, PairScore)
    ensures SortedDesc(Positive(s), PairScore)
  {
    if s != [] {
      PositiveSorted(s[1..]);
      PositiveBounded(s[1..], s[0].1);
    }
  }

  /** Dropping the non-positive scores after sorting is sorting the positive ones. */
  lemma PositiveOfSort(s: seq<(Volunteer, int)>)
    ensures Positive(Sort(s, PairScore)) == Sort(Positive(s), PairScore)
  {
    var sorted := Sort(s, PairScore);
    var r := Positive(sorted);
    PositiveSorted(sorted);
    forall c ensures KeyClass(r, PairScore, c) == KeyClass(Positive(s), PairScore, c) {
      PositiveClasses(sorted, c);
      PositiveClasses(s, c);
    }
    SortCharacterised(Positive(s), r, PairScore);
  }

  /** `k or ev.slots`: a falsy `k` (absent or 0) falls back to the event's slots. */
  function Limit(k: Option<int>, e: Event): (n: int)
    ensures k.Some? && k.value != 0 ==> n == k.value
    ensures k == None || k == Some(0) ==> n == e.slots
  {
    if k.Some? && k.value != 0 then k.value else e.slots
  }

  /** `match_volunteers(vols, ev, k)`: sort, filter, slice, in the source's order. */
  function MatchVolunteers(vols: seq<Volunteer>, e: Event, k: Option<int>): (r: seq<(Volunteer, int)>)
    ensures r == Take(Sort(Positive(Scored(vols, e)), PairScore), Limit(k, e))
    ensures Limit(k, e) >= 0 ==> |r| <= Limit(k, e)
  {
    PositiveOfSort(Scored(vols, e));
    Take(Positive(Sort(Scored(vols, e), PairScore)), Limit(k, e))
  }

  /** A pair that survives the filter is a volunteer of `vols` with its own, positive score. */
  lemma PositivePairScored(vols: seq<Volunteer>, e: Event, p: (Volunteer, int))
    requires p in multiset(Positive(Scored(vols, e)))
    ensures p.1 > 0 && p.0 in vols && p.1 == Score(p.0, e)
  {
    var sc := Scored(vols, e);
    assert p in multiset(sc);
    var j :| 0 <= j < |sc| && sc[j] == p;
  }

  /** Every returned pair is a volunteer of `vols` with its own score, which is
      positive, and the scores never increase along the output. */
  lemma MatchedPairs(vols: seq<Volunteer>, e: Event, k: Option<int>)
    ensures forall i :: 0 <= i < |MatchVolunteers(vols, e, k)| ==>
      var p := MatchVolunteers(vols, e, k)[i]; p.1 > 0 && p.0 in vols && p.1 == Score(p.0, e)
    ensures SortedDesc(MatchVolunteers(vols, e, k), PairScore)
  {
    var r := MatchVolunteers(vols, e, k);
    var sc := Scored(vols, e);
    var sorted := Sort(Positive(sc), PairScore);
    forall i | 0 <= i < |r| ensures r[i].1 > 0 && r[i].0 in vols && r[i].1 == Score(r[i].0, e) {
      assert r[i] == sorted[i];
      assert sorted[i] in multiset(Positive(sc));
      PositivePairScored(vols, e, sorted[i]);
    }
    forall i, j | 0 <= i < j < |r| ensures r[i].1 >= r[j].1 {
      assert r[i] == sorted[i] && r[j] == sorted[j];
    }
  }

  /** Equal scores keep the input order: within every score class the output follows `vols`. */
  lemma EqualScoresKeepInputOrder(vols: seq<Volunteer>, e: Event, c: int)
    requires c > 0
    ensures KeyClass(Sort(Positive(Scored(vols, e)), PairScore), PairScore, c) == KeyClass(Scored(vols, e), PairScore, c)
  {
    PositiveClasses(Scored(vols, e), c);
  }

  /** When fewer volunteers score above 0 than the limit allows, all of them are returned. */
  lemma AllPositiveReturned(vols: seq<Volunteer>, e: Event, k: Option<int>, v: Volunteer)
    requires v in vols && Score(v, e) > 0
    requires |Positive(Scored(vols, e))| <= Limit(k, e)
    ensures (v, Score(v, e)) in MatchVolunteers(vols, e, k)
  {
    var i :| 0 <= i < |vols| && vols[i] == v;
    var sc := Scored(vols, e);
    assert sc[i] == (v, Score(v, e));
    PositiveKeeps(sc, i);
    assert (v, Score(v, e)) in multiset(Sort(Positive(sc), PairScore));
  }

  // ------------------------------------------------------------------
  // The fixture volunteer "Allie Nguyen" and event "Food Pantry Shift"
  // ------------------------------------------------------------------

  const Allie := Volunteer(1, "Allie Nguyen", {"Spanish", "CPR"}, {"English", "Spanish"},
                           {"sat_am", "sun_pm"}, 10, {"CPR"}, {NoHeavyLifting})
  const FoodPantry := Event(101, "Food Pantry Shift", {Lifting}, {"English"}, 2, {"sat_am"}, 12, {})

  /** 0 for skills, 2 for English, 2 for "sat_am", 1 for the radius, and -100 for the
      lifting conflict: -95, so the volunteer is not matched. */
  lemma AllieScoresMinus95()
    ensures Score(Allie, FoodPantry) == -95
    ensures MatchVolunteers([Allie], FoodPantry, None) == []
  {
    assert Allie.skills * FoodPantry.requiredSkills == {};
    assert Allie.languages * FoodPantry.languages == {"English"};
    assert "sat_am" in Allie.availability * FoodPantry.timeBlocks;
    assert Scored([Allie], FoodPantry) == [(Allie, -95)];
    assert Positive([(Allie, -95)]) == [];
  }

  /** Of two pairs with the same positive score, both pass the filter and the stable
      sort keeps the first in front. */
  lemma TiePairsKeepOrder(pa: (Volunteer, int), pb: (Volunteer, int))
    requires pa.1 == pb.1 > 0
    ensures Positive([pa, pb]) == [pa, pb]
    ensures Sort([pa, pb], PairScore) == [pa, pb]
  {
    assert Positive([pa, pb]) == [pa] + Positive([pb]);
    assert Positive([pb]) == [pb] + Positive([]);
    SortOfSorted([pa, pb], PairScore);
  }

  /** Two volunteers with equal scores for a one-slot event: only the first listed is returned. */
  lemma TieGoesToFirstListed(a: Volunteer, b: Volunteer, e: Event)
    requires Score(a, e) == Score(b, e) > 0 && e.slots == 1
    ensures MatchVolunteers([a, b], e, None) == [(a, Score(a, e))]
  {
    var n := Score(a, e);
    var pa, pb := (a, n), (b, n);
    assert Scored([a, b], e) == [pa, pb];
    TiePairsKeepOrder(pa, pb);
    assert Take([pa, pb], 1) == [pa];
  }
}
