/**
 * The volunteer-history page: query-value helpers, the known participation
 * statuses, and the filter-and-sort of participation records behind the
 * page. The page keeps the records of the requested volunteer, in the
 * requested status, on or after the requested date, and lists them by
 * date, oldest first, an undated record sorting as `date.min`.
 */
module History {
  import opened Wrappers
  import opened Text
  import opened Calendar
  import opened StableSort
  import opened Sequences
  import opened HistoryDates

  /** A query dictionary: the value `QueryDict.get` returns for each key present. */
  type Query = map<string, string>

  const DefaultStatusOptions: seq<string> := ["Registered", "Attended", "No-Show", "Cancelled"]

  /** The format hint the page shows next to the date field. */
  const DateFmt := "%Y-%m-%d"

  const VolunteerKeys: seq<string> := ["volunteer", "volunteer_id"]
  const StatusKeys: seq<string> := ["status"]
  const FromKeys: seq<string> := ["from", "from_date", "fromDate", "start", "start_date"]

  /** `k` names a value that is not blank. */
  predicate Hit(q: Query, k: string)
  {
    k in q && !IsBlank(q[k])
  }

  /** What `_first(q, *keys, default=default)` returns. */
  function FirstValue(q: Query, keys: seq<string>, default: string): string
  {
    if keys == [] then default
    else if Hit(q, keys[0]) then Strip(q[keys[0]])
    else FirstValue(q, keys[1..], default)
  }

  /** The value of the first key naming a non-blank value, stripped; the default
      when there is none. */
  lemma {:induction false} FirstValueCharacterised(q: Query, keys: seq<string>, default: string)
    ensures (forall i :: 0 <= i < |keys| ==> !Hit(q, keys[i])) ==> FirstValue(q, keys, default) == default
    ensures forall i :: 0 <= i < |keys| && Hit(q, keys[i]) && (forall j :: 0 <= j < i ==> !Hit(q, keys[j])) ==>
      FirstValue(q, keys, default) == Strip(q[keys[i]])
  {
    if keys != [] {
      FirstValueCharacterised(q, keys[1..], default);
      if !Hit(q, keys[0]) {
        forall i | 0 <= i < |keys| && Hit(q, keys[i]) && (forall j :: 0 <= j < i ==> !Hit(q, keys[j]))
          ensures FirstValue(q, keys, default) == Strip(q[keys[i]])
        {
          assert keys[1..][i - 1] == keys[i];
          forall j | 0 <= j < i - 1 ensures !Hit(q, keys[1..][j]) {
            assert keys[1..][j] == keys[j + 1];
          }
        }
        if forall i :: 0 <= i < |keys| ==> !Hit(q, keys[i]) {
          forall j | 0 <= j < |keys[1..]| ensures !Hit(q, keys[1..][j]) {
            assert keys[1..][j] == keys[j + 1];
          }
        }
      }
    }
  }

  /** A value `_first` returns is the default or a stripped, non-empty string. */
  lemma {:induction false} FirstValueIsStripped(q: Query, keys: seq<string>, default: string)
    ensures var r := FirstValue(q, keys, default); r == default || (r != "" && Strip(r) == r)
  {
    if keys != [] {
      if Hit(q, keys[0]) {
        StripIdempotent(q[keys[0]]);
      } else {
        FirstValueIsStripped(q, keys[1..], default);
      }
    }
  }

  /** `_first(qd, *keys, default)`: a search loop over the keys. */
  method First(q: Query, keys: seq<string>, default: string) returns (r: string)
    ensures r == FirstValue(q, keys, default)
  {
    var i := 0;
    while i < |keys|
      invariant 0 <= i <= |keys|
      invariant FirstValue(q, keys, default) == FirstValue(q, keys[i..], default)
    {
      var k := keys[i];
      if k in q && !IsBlank(q[k]) {
        return Strip(q[k]);
      }
      assert keys[i..][1..] == keys[i + 1..];
      i := i + 1;
    }
    return default;
  }

  /** A participation record, with its status and urgency already read as strings. */
  datatype Participation = Participation(
    id: int, volunteerId: int, volunteerName: string, eventName: string, description: string,
    location: string, requiredSkills: seq<string>, urgency: string, eventDate: DateInput,
    capacityCurrent: int, capacityTotal: int, languages: seq<string>, status: string)

  /** `_get_status_options()`: the distinct statuses of the records in code-point
      order, or the default list when there are no records. */
  function StatusOptions(records: seq<Participation>): (r: seq<string>)
    ensures records == [] ==> r == DefaultStatusOptions
    ensures records != [] ==> StrictlyIncreasing(r)
    ensures records != [] ==> forall s :: s in r <==> exists i :: 0 <= i < |records| && records[i].status == s
  {
    var statuses := set i | 0 <= i < |records| :: records[i].status;
    if records != [] then
      assert records[0].status in statuses;
      SortedStrings(statuses)
    else DefaultStatusOptions
  }

  /** The first option equal to `norm` after lower-casing, or "" when there is none. */
  function FirstCaseless(options: seq<string>, norm: string): (r: string)
    ensures r == "" || (r in options && Lower(r) == norm)
    ensures (forall i :: 0 <= i < |options| ==> Lower(options[i]) != norm) ==> r == ""
    ensures forall i :: (0 <= i < |options| && Lower(options[i]) == norm
      && (forall j :: 0 <= j < i ==> Lower(options[j]) != norm)) ==> r == options[i]
  {
    if options == [] then ""
    else if Lower(options[0]) == norm then options[0]
    else
      var r := FirstCaseless(options[1..], norm);
      assert forall i :: 1 <= i < |options| ==> options[i] == options[1..][i - 1];
      r
  }

  /** When `o` is the only option that lower-cases to `norm`, the lookup finds it,
      wherever it stands in the list. */
  lemma {:induction false} FirstCaselessUnique(options: seq<string>, norm: string, o: string)
    requires o in options && Lower(o) == norm
    requires forall i :: 0 <= i < |options| && Lower(options[i]) == norm ==> options[i] == o
    ensures FirstCaseless(options, norm) == o
  {
    if Lower(options[0]) != norm {
      var rest := options[1..];
      assert options == [options[0]] + rest;
      assert o in rest;
      forall i | 0 <= i < |rest| && Lower(rest[i]) == norm
        ensures rest[i] == o
      {
        assert rest[i] == options[i + 1];
      }
      FirstCaselessUnique(rest, norm, o);
    }
  }

  /** `_canon_status(s)` against the given options. */
  function CanonStatus(s: Option<string>, options: seq<string>): (r: string)
    ensures s == None || s == Some("") ==> r == ""
    ensures r != "" ==> r in options && Lower(r) == Lower(Strip(s.value))
    ensures s.Some? && s.value != "" && (forall i :: 0 <= i < |options| ==> Lower(options[i]) != Lower(Strip(s.value))) ==> r == ""
  {
    if s == None || s.value == "" then "" else FirstCaseless(options, Lower(Strip(s.value)))
  }

  /** A row of the page; `_sort_date` is recomputed by `SortDate` instead of being
      stored and popped. */
  datatype Row = Row(
    id: int, volunteerId: int, volunteerName: string, eventName: string, description: string,
    location: string, requiredSkills: seq<string>, urgency: string, eventDate: Option<Date>,
    eventDateIso: string, capacity: string, languages: seq<string>, status: string)

  function MakeRow(r: Participation): (row: Row)
    ensures row.eventDate == CoerceToDate(r.eventDate)
    ensures row.eventDateIso == if row.eventDate.Some? then IsoFormat(row.eventDate.value) else ""
    ensures row.id == r.id && row.volunteerId == r.volunteerId && row.status == r.status
  {
    var d := CoerceToDate(r.eventDate);
    Row(r.id, r.volunteerId, r.volunteerName, r.eventName, r.description, r.location, r.requiredSkills,
        r.urgency, d, if d.Some? then IsoFormat(d.value) else "",
        Decimal(r.capacityCurrent) + " / " + Decimal(r.capacityTotal), r.languages, r.status)
  }

  /** `event_date or dt.date.min`. */
  function SortDate(row: Row): Date
  {
    row.eventDate.GetOr(MinDate)
  }

  /** Sorting ascending by date is sorting descending by the negated key. */
  function RowKey(row: Row): int
  {
    -DateKey(SortDate(row))
  }

  /** The three filters of the loop, each skipped when its value is empty or absent. */
  predicate Keep(r: Participation, vid: string, canon: string, from: Option<Date>)
  {
    var eventDate := CoerceToDate(r.eventDate);
    && !(vid != "" && Decimal(r.volunteerId) != vid)
    && !(canon != "" && Lower(r.status) != Lower(canon))
    && !(from.Some? && (eventDate.None? || DateLt(eventDate.value, from.value)))
  }

  /** The rows the loop appends, in record order. */
  function Selected(records: seq<Participation>, vid: string, canon: string, from: Option<Date>): seq<Row>
  {
    FilterMap(records, r => Keep(r, vid, canon, from), MakeRow)
  }

  /** The active filters the page echoes back. */
  datatype Filters = Filters(volunteer: string, status: string, fromDate: string, dateFormatHint: string)

  /** A redirect to the bare page, or the context the page is rendered with. */
  datatype HistoryResponse = Redirect | Rendered(statuses: seq<string>, rows: seq<Row>, count: int, filter: Filters)

  /** What `volunteer_history(request)` returns for a query over the given records. */
  function HistoryPage(q: Query, records: seq<Participation>): HistoryResponse
  {
    if "reset" in q then Redirect
    else
      var vid := FirstValue(q, VolunteerKeys, "");
      var statusFilter := FirstValue(q, StatusKeys, "");
      var from := ParseQsDate(Some(FirstValue(q, FromKeys, "")));
      var options := StatusOptions(records);
      var canon := CanonStatus(Some(statusFilter), options);
      var rows := Sort(Selected(records, vid, canon, from), RowKey);
      Rendered(options, rows, |rows|,
               Filters(vid, canon, if from.Some? then IsoFormat(from.value) else "", DateFmt))
  }

  /** One iteration's `include` flag, computed as the loop body does. */
  method Include(r: Participation, vid: string, canon: string, from: Option<Date>) returns (keep: bool)
    ensures keep == Keep(r, vid, canon, from)
  {
    var eventDate := CoerceToDate(r.eventDate);
    keep := true;
    if vid != "" && Decimal(r.volunteerId) != vid {
      keep := false;
    }
    if keep && canon != "" && Lower(r.status) != Lower(canon) {
      keep := false;
    }
    if keep && from.Some? {
      if eventDate.None? || DateLt(eventDate.value, from.value) {
        keep := false;
      }
    }
  }

  /** The loop of `volunteer_history`: appends a row for every record that passes. */
  method SelectRows(records: seq<Participation>, vid: string, canon: string, from: Option<Date>) returns (rows: seq<Row>)
    ensures rows == Selected(records, vid, canon, from)
  {
    rows := [];
    var i := 0;
    while i < |records|
      invariant 0 <= i <= |records|
      invariant rows == Selected(records[..i], vid, canon, from)
    {
      var r := records[i];
      var keep := Include(r, vid, canon, from);
      assert records[..i + 1][..i] == records[..i];
      if keep {
        rows := rows + [MakeRow(r)];
      }
      i := i + 1;
    }
    assert records[..|records|] == records;
  }

  /** `volunteer_history(request)`: reads the query, appends the rows that pass the
      filters, and sorts them by date. */
  method VolunteerHistory(q: Query, records: seq<Participation>) returns (page: HistoryResponse)
    ensures page == HistoryPage(q, records)
  {
    if "reset" in q {
      return Redirect;
    }
    var vid := First(q, VolunteerKeys, "");
    var statusFilter := First(q, StatusKeys, "");
    var fromStr := First(q, FromKeys, "");
    var from := ParseQsDate(Some(fromStr));
    var options := StatusOptions(records);
    var canon := CanonStatus(Some(statusFilter), options);
    var rows := SelectRows(records, vid, canon, from);
    rows := Sort(rows, RowKey);
    page := Rendered(options, rows, |rows|,
                     Filters(vid, canon, if from.Some? then IsoFormat(from.value) else "", DateFmt));
  }

  /** `event_date < from_date` fails exactly when the date is on or after it. */
  lemma NotBeforeIsOnOrAfter(d: Date, from: Date)
    ensures !DateLt(d, from) <==> DateLe(from, d)
  {
    DateKeyOrder(d, from);
    DateKeyOrder(from, d);
  }

  /** `row` is the row of a record that passes the filters. */
  ghost predicate RowOfKept(row: Row, records: seq<Participation>, vid: string, canon: string, from: Option<Date>)
  {
    exists j :: 0 <= j < |records| && Keep(records[j], vid, canon, from) && row == MakeRow(records[j])
  }

  /** The loop appends the row of every record that passes the filters and of no other. */
  lemma SelectedExactlyKept(records: seq<Participation>, vid: string, canon: string, from: Option<Date>)
    ensures var sel := Selected(records, vid, canon, from);
      && |sel| <= |records|
      && (forall i :: 0 <= i < |sel| ==> RowOfKept(sel[i], records, vid, canon, from))
      && (forall j :: 0 <= j < |records| && Keep(records[j], vid, canon, from) ==> MakeRow(records[j]) in sel)
  {
    var sel := Selected(records, vid, canon, from);
    FilterMapExactly(records, r => Keep(r, vid, canon, from), MakeRow);
    forall i | 0 <= i < |sel| ensures RowOfKept(sel[i], records, vid, canon, from) {
      assert ImageOfKept(sel[i], records, r => Keep(r, vid, canon, from), MakeRow);
    }
  }

  /** Sorting by `RowKey` lists rows oldest first, undated rows sorting as `date.min`
      (so before every later date), equal keys in their original order, and keeps
      every row. */
  lemma SortedByDate(sel: seq<Row>)
    ensures var rows := Sort(sel, RowKey);
      && multiset(rows) == multiset(sel)
      && (forall i, j :: 0 <= i < j < |rows| ==> DateLe(SortDate(rows[i]), SortDate(rows[j])))
      && (forall i, j :: 0 <= i < j < |rows| && rows[j].eventDate.None? ==> SortDate(rows[i]) == MinDate)
      && (forall c :: KeyClass(rows, RowKey, c) == KeyClass(sel, RowKey, c))
  {
    var rows := Sort(sel, RowKey);
    forall i, j | 0 <= i < j < |rows| ensures DateLe(SortDate(rows[i]), SortDate(rows[j])) {
      assert RowKey(rows[i]) >= RowKey(rows[j]);
      DateKeyOrder(SortDate(rows[i]), SortDate(rows[j]));
    }
    forall i, j | 0 <= i < j < |rows| && rows[j].eventDate.None? ensures SortDate(rows[i]) == MinDate {
      assert RowKey(rows[i]) >= RowKey(rows[j]);
      DateKeyOrder(SortDate(rows[i]), MinDate);
      MinDateIsLeast(SortDate(rows[i]));
      DateKeyOrder(MinDate, SortDate(rows[i]));
    }
  }

  /** Sorting the selection keeps exactly the rows of the records that pass. */
  lemma SortedSelectionExactlyKept(records: seq<Participation>, vid: string, canon: string, from: Option<Date>)
    ensures var rows := Sort(Selected(records, vid, canon, from), RowKey);
      && (forall i :: 0 <= i < |rows| ==> RowOfKept(rows[i], records, vid, canon, from))
      && (forall j :: 0 <= j < |records| && Keep(records[j], vid, canon, from) ==> MakeRow(records[j]) in rows)
  {
    var sel := Selected(records, vid, canon, from);
    var rows := Sort(sel, RowKey);
    SelectedExactlyKept(records, vid, canon, from);
    forall i | 0 <= i < |rows| ensures RowOfKept(rows[i], records, vid, canon, from) {
      assert rows[i] in multiset(sel);
      var k :| 0 <= k < |sel| && sel[k] == rows[i];
    }
    forall j | 0 <= j < |records| && Keep(records[j], vid, canon, from) ensures MakeRow(records[j]) in rows {
      assert MakeRow(records[j]) in multiset(sel);
    }
  }

  /** The page lists exactly the records that pass the volunteer, status and date
      filters, oldest first with undated records sorting as `date.min`, ties in record
      order, and `count` is the number of rows. */
  lemma HistoryRowsCharacterised(q: Query, records: seq<Participation>)
    requires "reset" !in q
    ensures var page := HistoryPage(q, records);
      var vid := FirstValue(q, VolunteerKeys, "");
      var canon := CanonStatus(Some(FirstValue(q, StatusKeys, "")), StatusOptions(records));
      var from := ParseQsDate(Some(FirstValue(q, FromKeys, "")));
      && page.Rendered?
      && page.count == |page.rows|
      && (forall i :: 0 <= i < |page.rows| ==> RowOfKept(page.rows[i], records, vid, canon, from))
      && (forall j :: 0 <= j < |records| && Keep(records[j], vid, canon, from) ==> MakeRow(records[j]) in page.rows)
      && (forall i, j :: 0 <= i < j < |page.rows| ==> DateLe(SortDate(page.rows[i]), SortDate(page.rows[j])))
      && (forall i, j :: 0 <= i < j < |page.rows| && page.rows[j].eventDate.None? ==> SortDate(page.rows[i]) == MinDate)
      && (forall c :: KeyClass(page.rows, RowKey, c) == KeyClass(Selected(records, vid, canon, from), RowKey, c))
  {
    var vid := FirstValue(q, VolunteerKeys, "");
    var canon := CanonStatus(Some(FirstValue(q, StatusKeys, "")), StatusOptions(records));
    var from := ParseQsDate(Some(FirstValue(q, FromKeys, "")));
    SortedSelectionExactlyKept(records, vid, canon, from);
    SortedByDate(Selected(records, vid, canon, from));
  }

  /** With a from-date, every listed record has a date on or after it. */
  lemma FromDateExcludesEarlierAndUndated(r: Participation, vid: string, canon: string, from: Date)
    requires Keep(r, vid, canon, Some(from))
    ensures CoerceToDate(r.eventDate).Some? && DateLe(from, CoerceToDate(r.eventDate).value)
  {
    NotBeforeIsOnOrAfter(CoerceToDate(r.eventDate).value, from);
  }

  /** A query with `reset` redirects, whatever else it holds. */
  lemma ResetRedirects(q: Query, records: seq<Participation>)
    requires "reset" in q
    ensures HistoryPage(q, records) == Redirect
  {
  }

  /** An unreadable from-date applies no date filter. */
  lemma UnparsedFromDateIgnored(r: Participation, vid: string, canon: string)
    ensures Keep(r, vid, canon, None) == (!(vid != "" && Decimal(r.volunteerId) != vid) && !(canon != "" && Lower(r.status) != Lower(canon)))
  {
  }
}
