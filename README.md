# Volunteer matching and history rules, in Dafny

This project models the rule code of a Django volunteer-coordination app.
Volunteers are matched to events, and each volunteer's participation history
is listed and filtered. Only the sequential rules are modelled; the HTTP
views, forms and ORM around them stay in Python. Each rule is a Dafny
function, method or class, with contracts and lemmas that state what it does.

Modules, following the program's files:

- `Domain` holds the frozen `Volunteer` and `Event` records of the weighted ranker
  (`volunteers_r_us/matching/domain.py`).
- `WeightedRanker` is the integer scorer and the ranker of `matching/logic.py`: stable sort by
  descending score, drop scores of 0 or less, cut to `k or slots`.
- `MatchingViews` covers the sorted-list JSON rendering and the event lookup of `match_api` in
  `matching/views.py`. That file's own `score` and `match_volunteers` are verbatim copies of
  `matching/logic.py:4-19` and are modelled once, by `WeightedRanker.Score` and
  `WeightedRanker.MatchVolunteers`.
- `Eligibility` is the hard-constraint matcher of `volunteers_r_us/matching/logic.py`: half-open
  time windows, the radius test, an intersection-count score, and a stable sort with no
  truncation.
- `HistoryDates` and `History` cover the volunteer-history page (`history/views.py`):
  - the exception-free date readers in three layouts;
  - `_first` and `_canon_status`;
  - the filter loop and the date sort, with undated rows sorting as `date.min`.
- `Validators` is `history/validators.py`. Each check gives `Pass` or `Fail(message)` where the
  Python raises `ValueError(message)`.
- `DemoViews` holds the rules embedded in `volunteers_r_us/views.py`:
  - the demo score and the first-maximum suggestion;
  - the ordered warning list and the override rule;
  - the saved record;
  - the history filter over an inclusive date range, newest first.
- `ViewsMatching` holds the helpers of `volunteers_r_us/views_matching.py`: the skill label/code
  maps, required codes, availability and skill overlap. The assignment upsert is a class over a
  map keyed by (user, event).
- `Wrappers`, `Text`, `Calendar`, `StableSort` and `Sequences` are the shared vocabulary:
  - `Option`/`Outcome`/`Result`;
  - Python's `strip`, `lower`, `isdigit`, `int`, `str` and sorted string lists;
  - proleptic Gregorian dates;
  - a stable insertion sort, characterised by key classes;
  - a filter-and-map over sequences.

Both Python sorts used here, `sorted(..., reverse=True)` and `list.sort(...)`, are
stable. `StableSort.Sort` orders by descending integer key and keeps equal keys in
input order. An ascending sort is that sort on the negated key.

## Model

| member | source | states |
|---|---|---|
| Domain.NewVolunteer | django_project/volunteers_r_us/matching/domain.py:4-13 | `certifications` and `constraints` default to the empty set; the other fields are as given |
| Domain.NewEvent | django_project/volunteers_r_us/matching/domain.py:15-24 | `requires` defaults to the empty set; the other fields are as given |
| WeightedRanker.Score | django_project/matching/logic.py:4-14 | the model of `score`; no `ensures` of its own, `PenaltiesIndependent`, `ScoreBounds`, `ScoreMonotoneInSkills`, `ScoreMonotoneInCertifications`, `ScoreAddRequiredSkill`, `NoPenaltyScoreAtLeastMinusFive` and `MissingCertificationDropsOut` carry its properties |
| WeightedRanker.Fitness | django_project/matching/logic.py:5-9 | the score before the two hard-fail penalties (skills ×3, languages ×2, time +2, radius +1 or -5); no `ensures` of its own, `PenaltiesIndependent` and `NoPenaltyScoreAtLeastMinusFive` relate it to `Score` |
| WeightedRanker.PenaltiesIndependent | django_project/matching/logic.py:4-14 | the score is the fitness (skills, languages, time, radius) minus 100 per hard failure; the two penalties are independent, and together they subtract 200 |
| WeightedRanker.ScoreBounds | django_project/matching/logic.py:4-14 | -205 ≤ score ≤ 3·\|required skills\| + 2·\|event languages\| + 3 |
| WeightedRanker.ScoreMonotoneInSkills | django_project/matching/logic.py:6 | giving a volunteer more skills never lowers the score |
| WeightedRanker.ScoreMonotoneInCertifications | django_project/matching/logic.py:10-11 | giving a volunteer more certifications never lowers the score |
| WeightedRanker.ScoreAddRequiredSkill | django_project/matching/logic.py:6 | gaining one required skill adds exactly 3 |
| WeightedRanker.NoPenaltyScoreAtLeastMinusFive | django_project/matching/logic.py:4-14 | with every required certification and no lifting conflict, the score equals the fitness and is at least -5 |
| WeightedRanker.MissingCertificationDropsOut | django_project/matching/logic.py:4-18 | a missing certification drives the score to 0 or below (so the pair is dropped) unless the event's best fitness exceeds 100 |
| WeightedRanker.Scored | django_project/matching/logic.py:17 | one pair per volunteer, in input order, carrying its own score |
| WeightedRanker.Positive | django_project/matching/logic.py:18 | keeps a sub-multiset of the pairs, all with a score above 0 |
| WeightedRanker.PositiveKeeps | django_project/matching/logic.py:18 | every pair with a positive score survives the filter |
| WeightedRanker.PositiveOfSort | django_project/matching/logic.py:17-18 | filtering after the stable sort is the stable sort of the filtered pairs |
| WeightedRanker.Limit | django_project/matching/logic.py:19 | `k or ev.slots`: a non-zero `k` is the limit; `None` and 0 both fall back to the slots |
| WeightedRanker.MatchVolunteers | django_project/matching/logic.py:16-19 | the result is a prefix, of length `Limit` at most, of the positive pairs stable-sorted by descending score |
| WeightedRanker.MatchedPairs | django_project/matching/logic.py:17-19 | every returned pair is an input volunteer with its own positive score, and scores never increase along the output |
| WeightedRanker.EqualScoresKeepInputOrder | django_project/matching/logic.py:17-18 | within each positive score, the ranked volunteers come in input order |
| WeightedRanker.AllPositiveReturned | django_project/matching/logic.py:17-19 | when no more volunteers score above 0 than the limit allows, every one of them is returned |
| WeightedRanker.AllieScoresMinus95 | django_project/volunteers_r_us/matching/data.py:3-34 | the fixture volunteer scores 0+2+2+1-100 = -95 for the food-pantry event, and the ranking for that event is empty |
| WeightedRanker.TiePairsKeepOrder | django_project/matching/logic.py:17-18 | two pairs with the same positive score pass the filter and keep their order through the sort |
| WeightedRanker.TieGoesToFirstListed | django_project/matching/logic.py:16-19 | for a one-slot event, of two volunteers with equal positive scores only the first listed is returned |
| MatchingViews.VolunteerDict | django_project/matching/views.py:16-26 | id, name and radius are copied; each set becomes a strictly ascending list holding exactly the set's elements |
| MatchingViews.EventDict | django_project/matching/views.py:28-38 | id, title, slots and maximum radius are copied; each set becomes a strictly ascending list holding exactly its elements |
| MatchingViews.VolunteerDictInjective | django_project/matching/views.py:16-26 | two volunteers render alike exactly when they are equal |
| MatchingViews.FindEvent | django_project/matching/views.py:90 | no event exactly when no event has the id; otherwise the first event with that id |
| MatchingViews.MatchesJson | django_project/matching/views.py:106 | one entry per ranked pair, in order, with the rendered volunteer and its score |
| MatchingViews.MatchApiById | django_project/matching/views.py:87-107 | fails with "Unknown event_id" exactly when no event has the id; otherwise the response is `event_dict` of the first event with that id and the rendered ranking of the volunteers for that event |
| MatchingViews.MatchApiFollowsRanker | django_project/matching/views.py:102-107 | the response renders the event the lookup found and lists the ranker's pairs in ranker order, each with its own positive score, at most `slots` of them |
| Eligibility.TimeOverlap | django_project/volunteers_r_us/matching/logic.py:12-15 | the model of `time_overlap` on integer instants; no `ensures` of its own, `TimeOverlapIff`, `TouchingWindowsDoNotOverlap` and `ContainedWindowOverlaps` carry its properties |
| Eligibility.TimeOverlapIff | django_project/volunteers_r_us/matching/logic.py:12-15 | windows overlap exactly when each starts before the other ends; the relation is symmetric |
| Eligibility.TouchingWindowsDoNotOverlap | django_project/volunteers_r_us/tests/test_logic_branches.py:6-12 | a window ending when another starts overlaps it in neither order |
| Eligibility.ContainedWindowOverlaps | django_project/volunteers_r_us/matching/logic.py:12-15 | a non-empty window overlaps every window that contains it |
| Eligibility.SquaredDistance | django_project/volunteers_r_us/matching/logic.py:30 | the squared distance is never negative |
| Eligibility.OutsideRadius | django_project/volunteers_r_us/matching/logic.py:26-31 | the radius test of `matches_event`, on squared distances; no `ensures` of its own, `OutsideRadiusIsDistanceTest` proves it is `hypot(...) >= r` |
| Eligibility.OutsideRadiusIsDistanceTest | django_project/volunteers_r_us/matching/logic.py:30 | the square-root-free test is `hypot(...) >= r` for the true distance, for every radius, zero and negative ones included |
| Eligibility.MatchesEvent | django_project/volunteers_r_us/matching/logic.py:17-37 | eligible ⇔ required skills ⊆ skills, a shared language when the event lists any, slots (default 1) > 0, strictly inside the radius when one is set (locations default to the origin), and some block/window overlap when the event lists blocks |
| Eligibility.NoAvailabilityExcluded | django_project/volunteers_r_us/matching/logic.py:32-36 | an event with time blocks excludes a volunteer with no availability |
| Eligibility.UnconstrainedEventAcceptsAll | django_project/volunteers_r_us/matching/logic.py:17-37 | an event with no skills, languages, radius or blocks, and slots absent or positive, accepts everyone |
| Eligibility.Score | django_project/volunteers_r_us/matching/logic.py:39-43 | 0 ≤ score ≤ \|required skills\| + \|event languages\| |
| Eligibility.EligibleScore | django_project/volunteers_r_us/matching/logic.py:17-43 | an eligible volunteer scores at least the number of required skills, plus one when the event lists languages |
| Eligibility.Eligible | django_project/volunteers_r_us/matching/logic.py:46 | holds exactly the eligible volunteers, each with its score |
| Eligibility.EligibleSnoc | django_project/volunteers_r_us/matching/logic.py:46 | a volunteer appended to the list is appended to the eligible pairs, with its score, exactly when it matches |
| Eligibility.MatchVolunteers | django_project/volunteers_r_us/matching/logic.py:45-47 | the model of the eligibility `match_volunteers`; no `ensures` of its own, `MatchedExactlyEligible` and `EqualScoresRankFirstListedFirst` carry its properties |
| Eligibility.MatchedExactlyEligible | django_project/volunteers_r_us/matching/logic.py:45-47 | the ranking is exactly the eligible pairs: sorted by non-increasing score, equal scores in input order, not truncated |
| Eligibility.DisplayName | django_project/volunteers_r_us/matching/logic.py:52 | `full_name`, or `name` when the full name is absent or empty |
| Eligibility.VolunteerToDict | django_project/volunteers_r_us/matching/logic.py:49-57 | lists copied in order; the display name; the location defaulting to the origin |
| Eligibility.EventToDict | django_project/volunteers_r_us/matching/logic.py:59-69 | lists copied in order; `slots` defaulting to 0; the location defaulting to the origin |
| Eligibility.AbsentSlotsDefaultsDiffer | django_project/volunteers_r_us/matching/logic.py:24-65 | an absent `slots` is shown as 0 but matched as 1 |
| Eligibility.EventToDictKeepsMatching | django_project/volunteers_r_us/matching/logic.py:17-69 | with `slots` present, matching against the rendered event decides exactly as matching against the event |
| Eligibility.SkillSubsetRequired | django_project/volunteers_r_us/matching/test/test_logic.py:21-23 | a held skill is accepted; an extra unheld one ("cpr") excludes |
| Eligibility.LanguageIntersection | django_project/volunteers_r_us/matching/test/test_logic.py:25-27 | "english" is accepted; "vietnamese" excludes |
| Eligibility.SlotsPositive | django_project/volunteers_r_us/matching/test/test_logic.py:29-31 | one slot is accepted; zero slots excludes |
| Eligibility.RadiusBoundaryExcludes | django_project/volunteers_r_us/matching/test/test_logic.py:33-35 | at distance 0.5 a radius of 0.5 excludes and a radius of 1.0 accepts |
| Eligibility.TimeOverlapRequired | django_project/volunteers_r_us/matching/test/test_logic.py:37-48 | an overlapping block is accepted; a block starting when the window ends excludes; one overlapping block among several suffices |
| Eligibility.TieScores | django_project/volunteers_r_us/tests/test_logic_branches.py:29-37 | both test volunteers match the event and score 2 |
| Eligibility.EqualScoresRankFirstListedFirst | django_project/volunteers_r_us/tests/test_logic_branches.py:29-37 | the ranking lists volunteer 1 before volunteer 2 |
| HistoryDates.SafeDate | django_project/volunteers_r_us/history/views.py:54-61 | a date ⇔ month in 1..12, day within the month (Gregorian leap years) and year in 1..9999; the date has those fields |
| HistoryDates.SafeDateAsWritten | django_project/volunteers_r_us/history/views.py:54-61 | `_safe_date` as written, raise included; no `ensures` of its own, `SafeDateAsWrittenRaisesOnlyForYear` and `YearZeroRaisesAsWritten` carry its properties |
| HistoryDates.SafeDateAsWrittenRaisesOnlyForYear | django_project/volunteers_r_us/history/views.py:54-61 | as written, `_safe_date` raises exactly when month and day are valid and the year is outside 1..9999, and agrees with `SafeDate` otherwise |
| HistoryDates.ParseLayout | django_project/volunteers_r_us/history/views.py:64-100 | the three layout readers, on the corrected `_safe_date`; no `ensures` of its own, `ParseLayoutCharacterised`, `IsoRoundTrip`, `TailIgnored` and `LayoutsExclusive` carry its properties |
| HistoryDates.ParseLayoutCharacterised | django_project/volunteers_r_us/history/views.py:64-100 | each layout reader returns `d` ⇔ the string has at least 10 characters and its first ten are `d` written in that layout |
| HistoryDates.IsoRoundTrip | django_project/volunteers_r_us/history/views.py:64-74 | the ISO reader reads back every date's `isoformat()` |
| HistoryDates.TailIgnored | django_project/volunteers_r_us/history/views.py:64-100 | text after the first ten characters never changes what a reader returns |
| HistoryDates.LayoutsExclusive | django_project/volunteers_r_us/history/views.py:64-100 | no string has well-formed fields in two layouts |
| HistoryDates.ParseQsDate | django_project/volunteers_r_us/history/views.py:103-118 | the model of `_parse_qs_date_noexceptions`; no `ensures` of its own, `ParseQsDateCharacterised`, `ParseQsDateUnpadded`, `ParseQsDateAsWrittenAgrees` and the layout examples carry its properties |
| HistoryDates.ParseQsDateCharacterised | django_project/volunteers_r_us/history/views.py:103-118 | the query reader returns `d` ⇔ the stripped value begins with `d` in some layout, so the order the layouts are tried in does not matter |
| HistoryDates.LayoutAsWrittenAgrees | django_project/volunteers_r_us/history/views.py:54-100 | each layout reader as written agrees with the corrected one where it does not raise, and raises only when its year field reads 0000 |
| HistoryDates.ParseQsDateAsWrittenAgrees | django_project/volunteers_r_us/history/views.py:103-118 | the reader as written agrees with `ParseQsDate` except that it raises, which it does only when a year field reads 0000 |
| HistoryDates.ParseQsDateUnpadded | django_project/volunteers_r_us/history/views.py:103-118 | on a value with no surrounding whitespace, the ISO, month-first and year-slash readers are tried in order |
| HistoryDates.ParseQsDateAsWrittenUnpadded | django_project/volunteers_r_us/history/views.py:103-118 | the same order of readers for the reader as written, where a raising reader ends the search |
| HistoryDates.ReadsAs | django_project/volunteers_r_us/history/views.py:103-118 | a value with no surrounding whitespace that begins with `d` in some layout reads as `d` |
| HistoryDates.YearZeroRaisesAsWritten | django_project/volunteers_r_us/history/views.py:54-74 | "0000-01-01" makes the reader as written raise; the corrected reader returns no date |
| HistoryDates.IsoLayoutExample | django_project/volunteers_r_us/history/tests/test_volunteer_history.py:202-212 | "2025-10-22" reads as 22 October 2025 |
| HistoryDates.MonthDayLayoutExample | django_project/volunteers_r_us/history/tests/test_volunteer_history.py:214-224 | "10/22/2025" reads as the same date |
| HistoryDates.YearSlashLayoutExample | django_project/volunteers_r_us/history/views.py:90-100 | "2025/10/22" reads as the same date |
| HistoryDates.TimestampExample | django_project/volunteers_r_us/history/tests/test_volunteer_history.py:155 | "2025-10-16T12:00:00Z" reads, and coerces, as 16 October 2025 |
| HistoryDates.GarbageExample | django_project/volunteers_r_us/history/tests/test_volunteer_history.py:226-233 | "not-a-date" reads as no date |
| HistoryDates.ShortValueExample | django_project/volunteers_r_us/history/tests/test_volunteer_history.py:155-156 | "bad", "" and None read as no date, and "bad" and None coerce to no date |
| HistoryDates.CoerceToDate | django_project/volunteers_r_us/history/views.py:121-131 | a date is kept; a datetime gives its date; a string goes through the ISO reader only, unstripped; None and other values give no date |
| HistoryDates.CoerceIsoString | django_project/volunteers_r_us/history/views.py:121-131 | a date written with `isoformat()` coerces back to itself |
| HistoryDates.CoerceRejectsUsLayout | django_project/volunteers_r_us/history/views.py:121-131 | "10/22/2025" coerces to no date, though the query reader accepts it |
| History.FirstValue | django_project/volunteers_r_us/history/views.py:15-21 | the value `_first` returns; no `ensures` of its own, `FirstValueCharacterised`, `FirstValueIsStripped` and the method `First` carry its properties |
| History.FirstValueCharacterised | django_project/volunteers_r_us/history/views.py:15-21 | `_first` gives the stripped value of the first key with a non-blank value, or the default when there is none |
| History.FirstValueIsStripped | django_project/volunteers_r_us/history/views.py:15-21 | the result is the default or a non-empty string that stripping leaves unchanged |
| History.First | django_project/volunteers_r_us/history/views.py:15-21 | the search loop returns `FirstValue` |
| History.StatusOptions | django_project/volunteers_r_us/history/views.py:23-27 | with no records, the default list; otherwise the distinct statuses, strictly ascending, exactly those of the records |
| History.FirstCaseless | django_project/volunteers_r_us/history/views.py:48-51 | the first option whose lower-case form is the search string, or "" when there is none |
| History.CanonStatus | django_project/volunteers_r_us/history/views.py:43-51 | "" for None or ""; otherwise an option equal to the stripped value ignoring case, or "" when no option is |
| History.FirstCaselessUnique | django_project/volunteers_r_us/history/views.py:47-51 | when exactly one option lower-cases to the normalised value, the lookup returns that option wherever it stands |
| History.MakeRow | django_project/volunteers_r_us/history/views.py:177-192 | the row carries the coerced date, its ISO form or "", and the record's id, volunteer and status |
| History.Keep | django_project/volunteers_r_us/history/views.py:161-172 | the three filters on one record; no `ensures` of its own, `Include`, `SelectedExactlyKept`, `FromDateExcludesEarlierAndUndated` and `UnparsedFromDateIgnored` carry its properties |
| History.Include | django_project/volunteers_r_us/history/views.py:161-172 | the `include` flag of one iteration is `Keep` |
| History.SelectRows | django_project/volunteers_r_us/history/views.py:155-192 | the loop appends the rows of exactly the kept records, in record order |
| History.HistoryPage | django_project/volunteers_r_us/history/views.py:136-213 | the page as a function of the query and the records; no `ensures` of its own, `VolunteerHistory`, `HistoryRowsCharacterised` and `ResetRedirects` carry its properties |
| History.VolunteerHistory | django_project/volunteers_r_us/history/views.py:136-213 | the page, step by step, is `HistoryPage` |
| History.NotBeforeIsOnOrAfter | django_project/volunteers_r_us/history/views.py:170-172 | not before the from-date ⇔ on or after it |
| History.SelectedExactlyKept | django_project/volunteers_r_us/history/views.py:155-192 | every selected row belongs to a record passing the three filters, and every passing record's row is selected |
| History.SortedByDate | django_project/volunteers_r_us/history/views.py:191-194 | sorting keeps every row, orders dates ascending, sorts undated rows as `date.min`, so they precede every later date, and keeps equal dates (an undated row and one dated `date.min` included) in record order |
| History.HistoryRowsCharacterised | django_project/volunteers_r_us/history/views.py:143-211 | the page lists exactly the records passing volunteer, status and from-date filters, oldest first, undated rows sorting as `date.min` and so preceding every later date, ties in record order, and `count` is the number of rows |
| History.FromDateExcludesEarlierAndUndated | django_project/volunteers_r_us/history/views.py:170-172 | with a from-date, a kept record has a date on or after it |
| History.ResetRedirects | django_project/volunteers_r_us/history/views.py:140-141 | a query holding `reset` redirects |
| History.UnparsedFromDateIgnored | django_project/volunteers_r_us/history/views.py:150-172 | an unreadable from-date applies no date filter |
| HistoryExamples.FirstFallsBack | django_project/volunteers_r_us/history/tests/test_volunteer_history.py:138-141 | absent keys give the default |
| HistoryExamples.FirstSkipsBlank | django_project/volunteers_r_us/history/tests/test_volunteer_history.py:138-141 | a blank first value is skipped and the second is taken, stripped |
| HistoryExamples.FirstIsRegistered | django_project/volunteers_r_us/history/views.py:11 | "registered" finds "Registered" among the default statuses |
| HistoryExamples.SecondIsAttended | django_project/volunteers_r_us/history/views.py:11 | "attended" finds "Attended" among the default statuses |
| HistoryExamples.NoneIsUnknown | django_project/volunteers_r_us/history/views.py:11 | "unknown" finds no default status |
| HistoryExamples.SampleOptions | django_project/volunteers_r_us/history/views.py:23-27 | with the records of the `sample_data` fixture, every status option is one of its four statuses and each of the four is an option |
| HistoryExamples.SampleStatusFound | django_project/volunteers_r_us/history/views.py:43-51 | under the fixture, each of its statuses is the only option with its lower-case spelling, so the lookup returns it |
| HistoryExamples.CanonStripsAndFoldsCase | django_project/volunteers_r_us/history/tests/test_volunteer_history.py:144-145 | under the fixture's status options, any spelling of "registered" with surrounding whitespace gives "Registered" |
| HistoryExamples.CanonFoldsUpperCase | django_project/volunteers_r_us/history/tests/test_volunteer_history.py:146 | under the fixture's status options, any case of "attended" gives "Attended" |
| HistoryExamples.CanonUnknownIsEmpty | django_project/volunteers_r_us/history/tests/test_volunteer_history.py:147-148 | under the fixture's status options, an unknown status and None both give "" |
| Validators.Require | django_project/volunteers_r_us/history/validators.py:6-8 | fails ⇔ the value is None or "", with "<field> is required" |
| Validators.MaxLen | django_project/volunteers_r_us/history/validators.py:10-12 | passes ⇔ the value is empty or at most `limit` long; the message gives the limit in decimal |
| Validators.NonNegativeInt | django_project/volunteers_r_us/history/validators.py:14-16 | passes ⇔ an int (bools included) ≥ 0 |
| Validators.PositiveInt | django_project/volunteers_r_us/history/validators.py:18-20 | passes ⇔ an int (bools included) > 0 |
| Validators.ListOfStrings | django_project/volunteers_r_us/history/validators.py:22-33 | the loop with its `ok` flag reports None, a non-list, the first bad item and emptiness, in that order |
| Validators.ListOfStringsOutcome | django_project/volunteers_r_us/history/validators.py:22-33 | the outcome of `list_of_strings`; no `ensures` of its own, the method `ListOfStrings` computes it and `ListOfStringsPassIff`, `StringIsNotAList` and `ListOfStringsRejects` carry its properties |
| Validators.ListOfStringsPassIff | django_project/volunteers_r_us/history/validators.py:22-33 | passes ⇔ a non-empty list whose items are all strings that are not all whitespace |
| Validators.StringIsNotAList | django_project/volunteers_r_us/history/validators.py:25-26 | a bare str or bytes is rejected as not a list |
| Validators.ListOfStringsRejects | django_project/volunteers_r_us/history/tests/test_validators.py:9-14 | `[]` fails as empty and `[1, 2]` as holding an invalid item |
| Validators.BlankPassesRequireNotListItem | django_project/volunteers_r_us/history/validators.py:6-33 | a whitespace-only string passes `require` but is a bad list item |
| Validators.PositiveIsNonNegative | django_project/volunteers_r_us/history/validators.py:14-20 | positive implies non-negative; `True` is positive, `False` non-negative, the string "1" not an int |
| Validators.MaxLenBoundary | django_project/volunteers_r_us/history/tests/test_validators.py:16-19 | a value exactly at the limit passes; one character more fails |
| Validators.CapacityOk | django_project/volunteers_r_us/history/validators.py:35-37 | passes ⇔ current ≤ total |
| Validators.DateInRange | django_project/volunteers_r_us/history/validators.py:38-43 | in range ⇔ on or after `start` when given, and on or before `end` when given |
| Validators.DateInRangeBounds | django_project/volunteers_r_us/history/validators.py:38-43 | no bounds admit every date; both bounds are inclusive; crossed bounds admit none |
| DemoViews.Score | django_project/volunteers_r_us/views.py:176-179 | the tens count shared skills and the units are 1 exactly when the slot fits |
| DemoViews.SkillsOutweighTimeFit | django_project/volunteers_r_us/views.py:176-179 | one more shared skill always outranks a time fit; a higher score means more skills, or as many plus a fit |
| DemoViews.Suggest | django_project/volunteers_r_us/views.py:181 | none ⇔ no events; otherwise the first position with the greatest score |
| DemoViews.SuggestUnique | django_project/volunteers_r_us/views.py:181 | any first position of the greatest score is the suggestion |
| DemoViews.Warnings | django_project/volunteers_r_us/views.py:185-196 | each of the four warnings is present ⇔ its condition holds, there are no others, and they come in the order of the checks; the missing skills are sorted and joined with ", " |
| DemoViews.StripOrNone | django_project/volunteers_r_us/views.py:214-215 | None ⇔ missing or all whitespace; otherwise the stripped, non-empty value |
| DemoViews.MatchReason | django_project/volunteers_r_us/views.py:199 | the `match_reason` text; no `ensures` of its own, `SavedRecord` states that the saved record carries it |
| DemoViews.SavedRecord | django_project/volunteers_r_us/views.py:208-219 | ids, action, `notify` ⇔ "assign_notify", `override` ⇔ "on", stripped-or-None reason and notes, score, reason and warnings |
| DemoViews.SavedOverrideHasReason | django_project/volunteers_r_us/views.py:203-219 | a saved override always carries a non-empty reason |
| DemoViews.Submit | django_project/volunteers_r_us/views.py:201-219 | on a POST, an override with no or a blank reason gives the one error and no record; otherwise the saved record; nothing on a GET |
| DemoViews.Kept | django_project/volunteers_r_us/views.py:326-336 | the entries passing the four history filters; no `ensures` of its own, `FilterHistory`, `VolunteerHistory` and `HistoryCharacterised` carry its properties |
| DemoViews.FilterHistory | django_project/volunteers_r_us/views.py:326-336 | the loop with its four `continue` tests appends exactly `Kept`, in fixture order |
| DemoViews.VolunteerHistory | django_project/volunteers_r_us/views.py:310-338 | the rows are the kept entries for the stripped query values, stably sorted newest first |
| DemoViews.PassesIsDateInRange | django_project/volunteers_r_us/views.py:327-336 | the loop's tests are exact volunteer and status matches plus `date_in_range` |
| DemoViews.HistoryCharacterised | django_project/volunteers_r_us/views.py:326-338 | exactly the passing entries, dates non-increasing, equal dates in fixture order |
| ViewsMatching.LabelToCode | django_project/volunteers_r_us/views_matching.py:14 | `_LABEL_TO_CODE`; no `ensures` of its own, `SkillMapsInverse` and the `EventRequiredCodes` lemmas carry its properties |
| ViewsMatching.CodeToLabel | django_project/volunteers_r_us/views_matching.py:15 | `_CODE_TO_LABEL`; no `ensures` of its own, `SkillMapsInverse` proves it the inverse of `LabelToCode` |
| ViewsMatching.CodeMap | django_project/volunteers_r_us/views_matching.py:15 | the keys are exactly the codes of the pairs |
| ViewsMatching.LabelMap | django_project/volunteers_r_us/views_matching.py:14 | the keys are exactly the labels of the pairs |
| ViewsMatching.CodeMapOfPairs | django_project/volunteers_r_us/views_matching.py:15 | with distinct codes, each code maps to its own label |
| ViewsMatching.LabelMapOfPairs | django_project/volunteers_r_us/views_matching.py:14 | with distinct labels, each label maps to its own code |
| ViewsMatching.MapsInverse | django_project/volunteers_r_us/views_matching.py:14-15 | with distinct codes and labels, the two maps are mutual inverses |
| ViewsMatching.SkillChoicesDistinct | django_project/volunteers_r_us/choices.py:19-35 | the fifteen skill codes are distinct and non-empty, and so are the labels |
| ViewsMatching.SkillMapsInverse | django_project/volunteers_r_us/views_matching.py:14-15 | `_LABEL_TO_CODE` and `_CODE_TO_LABEL` are mutual inverses, and every code is non-empty |
| ViewsMatching.EventRequiredCodes | django_project/volunteers_r_us/views_matching.py:17-19 | the model of `_event_required_codes`; no `ensures` of its own, `EventRequiredCodesSound`, `EventRequiredCodesComplete`, `EventRequiredCodesUnknownDropped` and `EventRequiredCodesAllKnown` carry its properties |
| ViewsMatching.EventRequiredCodesSound | django_project/volunteers_r_us/views_matching.py:17-19 | every code is the code of one of the event's labels; no more codes than labels |
| ViewsMatching.EventRequiredCodesComplete | django_project/volunteers_r_us/views_matching.py:17-19 | every label that has a code contributes that code |
| ViewsMatching.EventRequiredCodesUnknownDropped | django_project/volunteers_r_us/views_matching.py:17-19 | labels without a code are dropped: no known label, no codes |
| ViewsMatching.EventRequiredCodesAllKnown | django_project/volunteers_r_us/views_matching.py:17-19 | when every label is known, the codes are the labels' codes one for one, in order |
| ViewsMatching.AvailableOn | django_project/volunteers_r_us/views_matching.py:21-22 | available ⇔ the event's ISO date is in the availability list (so never for an empty list) |
| ViewsMatching.SkillOverlap | django_project/volunteers_r_us/views_matching.py:24-27 | true with no required codes; otherwise ⇔ the skills are present and share a code |
| ViewsMatching.Upsert | django_project/volunteers_r_us/views_matching.py:69-77 | the store after `get_or_create` and the status reset; no `ensures` of its own, `UpsertAssigns`, `UpsertIdempotent`, `UpsertCommutes` and the method `AssignmentStore.Assign` carry its properties |
| ViewsMatching.UpsertAssigns | django_project/volunteers_r_us/views_matching.py:69-77 | afterwards the pair has one row, status "assigned"; that key alone is added when missing; an existing row keeps its other fields; other rows are unchanged |
| ViewsMatching.UpsertIdempotent | django_project/volunteers_r_us/tests/test_matching.py:89-100 | assigning twice is assigning once; no second row |
| ViewsMatching.UpsertCommutes | django_project/volunteers_r_us/views_matching.py:69-77 | assignments of different pairs commute |
| ViewsMatching.AssignmentStore.Assign | django_project/volunteers_r_us/views_matching.py:69-77 | `created` ⇔ the pair had no row; the rows become `Upsert` of the old rows |
| StableSort.Sort | django_project/matching/logic.py:17 | output sorted by descending key, a permutation of the input, every key class in input order |
| StableSort.SortCharacterised | django_project/matching/logic.py:17 | any sequence sorted by descending key and with the input's key classes is the sort |
| StableSort.SortOfSorted | django_project/matching/logic.py:17 | an already sorted sequence is left as it is |
| Sequences.Take | django_project/matching/logic.py:19 | Python's `s[:n]`: a prefix of length min(n, \|s\|), or \|s\|+n (at least 0) for a negative `n` |
| Sequences.FilterMapExactly | django_project/volunteers_r_us/history/views.py:155-192 | a filter-and-map keeps the image of every kept element and of no other |
| Text.Strip | django_project/volunteers_r_us/history/views.py:19-20 | the result is a slice with whitespace only around it and none at its ends |
| Text.StripIdempotent | django_project/volunteers_r_us/history/views.py:19-20 | stripping twice is stripping once |
| Text.BlankIffAllSpace | django_project/volunteers_r_us/history/views.py:19 | `not v.strip()` ⇔ every character is whitespace |
| Text.Lower | django_project/volunteers_r_us/history/views.py:47 | same length, lower-cased character by character |
| Text.SortedStrings | django_project/matching/views.py:20 | `sorted(set)`: strictly ascending, exactly the set's elements |
| Text.NatDecimalRoundTrip | django_project/volunteers_r_us/history/views.py:163 | the decimal digits of `n` read back as `n` |
| Text.DecimalInjective | django_project/volunteers_r_us/history/views.py:163 | distinct ints have distinct `str()` forms, so the string comparison is the id comparison |
| Calendar.DaysInMonth | django_project/volunteers_r_us/history/views.py:58 | 28 to 31 days; February has 29 exactly in a Gregorian leap year |
| Calendar.MinDateIsLeast | django_project/volunteers_r_us/history/views.py:191 | `dt.date.min` is on or before every date |
| Calendar.IsoFormat | django_project/volunteers_r_us/history/views.py:187 | ten characters, dashes at positions 4 and 7, digit fields |
| Calendar.IsoFormatFields | django_project/volunteers_r_us/history/views.py:187 | the fields of `isoformat()` read back as the year, month and day |

## Left out

- HTTP plumbing is left out: request parsing, rendering, redirects (beyond the `reset` branch), messages, login and staff decorators, CSRF, JSON decoding, and `static/match.js`. These are I/O.
- The ORM is left out: models, migrations, admin, signals, `Notification` creation and `send_mail` in `assign_volunteer` and `match_volunteer`. These are side effects. The assignment table is a map from (user, event) to a row.
- Django forms and DRF serializers are left out, and with them the `EventForm` branch of `match_api` (`django_project/matching/views.py:93-101`). They are library validation.
- `hypot` is modelled exactly over the reals as the squared comparison (`r <= 0 || dx²+dy² >= r²`), not as floating-point rounding. Locations are reals; `score`'s `float(...)` result is an integer.
- Instants in `volunteers_r_us/matching/logic.py` are integers. `_to_dt` / `datetime.fromisoformat` is not modelled, so a malformed time string, which raises only once the earlier checks pass, is not modelled either.
- The demo history's `strptime` parse (`django_project/volunteers_r_us/views.py:316-324`) is a parameter: `from` and `to` arrive already parsed, as a date or None.
- `str.isdigit` and `lower` are modelled for ASCII digits and ASCII letters, because the model has no Unicode digit or case tables. Whitespace for `strip` is Python's full `isspace` set.
- `HistoryDates.CoerceToDate`, `History.Keep`, `History.MakeRow` and `History.VolunteerHistory` are built on the corrected date readers, so they never raise. As written there are two raise paths, and on both the page raises where the model returns no date (the record is kept undated, or no from-filter applies):
  - A year field of "0000", in a stored date string (`django_project/volunteers_r_us/history/views.py:130`, then 73, then 61) or in a query such as `?from=0000-01-01`. This is the row under "## Findings".
  - A field of Unicode digits that `str.isdigit` accepts and `int` rejects, such as "²", in any of the three readers (`django_project/volunteers_r_us/history/views.py:71-73`, `84-86`, `97-99`). The ASCII-only digit model above does not capture this one.
- The first `_coerce_to_date` (`django_project/volunteers_r_us/history/views.py:30-41`) is left out: it is dead code, shadowed by the definition at line 121.
- The fixtures are left out: `VOLUNTEERS`/`EVENTS` in `matching/data.py`, `history/datastore.py`, and `VOLUNTEERS`/`HISTORY` in `volunteers_r_us/views.py`. Records are parameters; two fixtures appear only as concrete lemma inputs.
- The events to match against are a parameter, so the view's fixed events list and its `next(...)` selections (`django_project/volunteers_r_us/views.py:173-174` and `182-183`) are not modelled. `Suggest` returns a position; on an empty list, where Python's `max` raises, it returns None.
- Sorting in place (`rows.sort(...)`) is a reassignment to the stable functional sort. The in-place `pop("_sort_date")` is replaced by computing the sort key from the row.
- `match_api`'s request decoding is left out: `event_id` arrives as an int, so comparing it with a string id is not modelled.
- `list_of_strings` has its iterables abstracted: `PyList` stands for any iterable other than `str`/`bytes`, in iteration order. Dict iteration, generators and other one-shot iterables are not distinguished.
- The notification `match_volunteer` creates for a signed-in user is left out with the ORM, and so is its `request.user.is_authenticated` test.
- `History.StatusOptions`, `History.Keep` and `History.MakeRow` take a record's status and urgency as already-read strings (the `status` and `urgency` fields of `History.Participation`). The enum handling is left out: `getattr(p.status, "value", str(p.status))` when the options are gathered (`django_project/volunteers_r_us/history/views.py:26`), `getattr(record.status, "value", str(record.status))` before the status filter (`django_project/volunteers_r_us/history/views.py:159`), and `str(getattr(record.urgency, "value", record.urgency))` for the row's urgency (`django_project/volunteers_r_us/history/views.py:185`).
- `_safe_date` calls `calendar.monthrange`, which accepts any year and is modelled for all years. With years outside 1..9999 it behaves as documented for Python 3.8 and later.
- `Eligibility.EqualScoresRankFirstListedFirst` follows the code, not `django_project/volunteers_r_us/tests/test_logic_branches.py:37`. That test expects ids [2, 1], but both volunteers score 2 and the stable sort keeps input order, [1, 2].
- Some tests do not match the code and are not modelled:
  - `test_views_coverage_boost.py` names helpers that do not exist.
  - `test_serializer_clean.py` imports a form that does not exist.
  - `test_match_api.py` posts choices the form rejects.
  - `test_views.py`'s assignment-count expectations do not match `volunteers_r_us/views.py`.
- A key present with the value None is not modelled in `Eligibility`: the model reads such a key as absent. Python's handling varies by key and by function (all lines in `django_project/volunteers_r_us/matching/logic.py`):
  - `max_radius_miles`: it acts as an absent key, so the radius test is skipped (line 27).
  - `required_skills` of the event and `skills` of the volunteer: `matches_event` raises at `set(None)` (lines 18-19).
  - `languages` of the event: `matches_event` passes the language test (line 22). `score` raises for an eligible volunteer (line 42), and `event_to_dict` raises (line 64).
  - `languages` of the volunteer: `matches_event` raises only when the event lists languages (line 22). `score` raises for an eligible volunteer (line 42), and `volunteer_to_dict` raises (line 54).
  - `slots`: `matches_event` raises at `None <= 0` (line 24), while `event_to_dict` copies the None (line 65).
  - `time_blocks`: `matches_event` skips the block test (line 33), while `event_to_dict` raises (line 66).
  - `availability`: `matches_event` raises only when the event lists time blocks (line 35), and `volunteer_to_dict` raises (line 56).
  - `location`: the radius test raises at `None["lat"]` when a radius is set (line 30), while both dict builders copy the None rather than the origin (lines 55 and 68).

## Findings

| source | as written | input that shows it | evidently intended | confidence | as-written member | corrected member |
|---|---|---|---|---|---|---|
| django_project/volunteers_r_us/history/views.py:54-61 | `_safe_date` checks the month and the day but not the year, then calls `dt.date`, which raises `ValueError` for year 0; the readers feed it four-digit year fields, so the "no exceptions" query reader raises | the query value "0000-01-01" | return no date for a year outside 1..9999, as for a bad month or day | not executed | HistoryDates.YearZeroRaisesAsWritten | HistoryDates.SafeDate |
