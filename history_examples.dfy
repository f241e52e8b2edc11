/**
 * The behaviour of the volunteer-history helpers on the inputs of the
 * project's own tests.
 */
module HistoryExamples {
  import opened Wrappers
  import opened Text
  import opened History

  lemma LowerExample(s: string, t: string)
    requires |s| == |t| && forall i :: 0 <= i < |s| ==> LowerChar(s[i]) == t[i]
    ensures Lower(s) == t
  {
  }

  /** Keys that are absent give the default. */
  lemma FirstFallsBack()
    ensures FirstValue(map["a" := "  ", "b" := "hello"], ["x", "y"], "fallback") == "fallback"
  {
    assert ["x", "y"][1..] == ["y"];
  }

  /** A blank value is skipped and the next value is taken, stripped. */
  lemma FirstSkipsBlank(q: Query, keys: seq<string>)
    requires |keys| == 2 && keys[0] in q && AllSpace(q[keys[0]]) && Hit(q, keys[1])
    ensures FirstValue(q, keys, "") == Strip(q[keys[1]])
  {
    BlankIffAllSpace(q[keys[0]]);
    FirstValueCharacterised(q, keys, "");
  }

  lemma FirstIsRegistered()
    ensures FirstCaseless(DefaultStatusOptions, "registered") == "Registered"
  {
    LowerExample("Registered", "registered");
    assert DefaultStatusOptions[0] == "Registered";
  }

  lemma SecondIsAttended()
    ensures FirstCaseless(DefaultStatusOptions, "attended") == "Attended"
  {
    LowerExample("Registered", "registered");
    LowerExample("Attended", "attended");
    assert DefaultStatusOptions[0] == "Registered" && DefaultStatusOptions[1] == "Attended";
  }

  lemma NoneIsUnknown()
    ensures FirstCaseless(DefaultStatusOptions, "unknown") == ""
  {
    LowerExample("Registered", "registered");
    LowerExample("Attended", "attended");
    LowerExample("No-Show", "no-show");
    LowerExample("Cancelled", "cancelled");
    assert DefaultStatusOptions == ["Registered", "Attended", "No-Show", "Cancelled"];
  }

  /** The statuses of the four participation records of the tests' `sample_data`
      fixture. */
  const SampleStatuses: set<string> := {"Registered", "Attended", "No-Show", "Cancelled"}

  /** Records whose statuses are exactly those of the fixture, as under `sample_data`;
      `StatusOptions` then lists those four statuses in code-point order. */
  predicate SampleData(records: seq<Participation>)
  {
    && records != []
    && (forall i :: 0 <= i < |records| ==> records[i].status in SampleStatuses)
    && (forall s :: s in SampleStatuses ==> exists i :: 0 <= i < |records| && records[i].status == s)
  }

  lemma SampleLowers()
    ensures Lower("Registered") == "registered" && Lower("Attended") == "attended"
    ensures Lower("No-Show") == "no-show" && Lower("Cancelled") == "cancelled"
  {
    LowerExample("Registered", "registered");
    LowerExample("Attended", "attended");
    LowerExample("No-Show", "no-show");
    LowerExample("Cancelled", "cancelled");
  }

  /** Under the fixture every option is one of its four statuses, and each of them
      is an option. */
  lemma SampleOptions(records: seq<Participation>)
    requires SampleData(records)
    ensures forall i :: 0 <= i < |StatusOptions(records)| ==> StatusOptions(records)[i] in SampleStatuses
    ensures forall o :: o in SampleStatuses ==> o in StatusOptions(records)
  {
    var options := StatusOptions(records);
    forall i | 0 <= i < |options|
      ensures options[i] in SampleStatuses
    {
      assert options[i] in options;
    }
  }

  /** The fixture's statuses have different lengths, so no two of them share a
      lower-case spelling. */
  lemma SampleLowerDistinct(x: string, y: string)
    requires x in SampleStatuses && y in SampleStatuses && Lower(x) == Lower(y)
    ensures x == y
  {
    assert |x| == |y|;
  }

  /** No status of the fixture lower-cases to "unknown". */
  lemma SampleNotUnknown(x: string)
    requires x in SampleStatuses
    ensures Lower(x) != "unknown"
  {
    if |x| == 7 {
      assert x == "No-Show";
      LowerExample("No-Show", "no-show");
    }
  }

  /** Under the fixture each status is the only option with its lower-case spelling,
      so the lookup finds it. */
  lemma SampleStatusFound(records: seq<Participation>, o: string)
    requires SampleData(records) && o in SampleStatuses
    ensures FirstCaseless(StatusOptions(records), Lower(o)) == o
  {
    var options := StatusOptions(records);
    SampleOptions(records);
    forall i | 0 <= i < |options| && Lower(options[i]) == Lower(o)
      ensures options[i] == o
    {
      SampleLowerDistinct(options[i], o);
    }
    FirstCaselessUnique(options, Lower(o), o);
  }

  /** Surrounding whitespace and case do not matter: under the fixture any spelling
      of "registered" canonicalises to the option "Registered". */
  lemma CanonStripsAndFoldsCase(s: string, records: seq<Participation>)
    requires SampleData(records)
    requires Lower(Strip(s)) == "registered"
    ensures CanonStatus(Some(s), StatusOptions(records)) == "Registered"
  {
    SampleLowers();
    SampleStatusFound(records, "Registered");
  }

  lemma CanonFoldsUpperCase(s: string, records: seq<Participation>)
    requires SampleData(records)
    requires Lower(Strip(s)) == "attended"
    ensures CanonStatus(Some(s), StatusOptions(records)) == "Attended"
  {
    SampleLowers();
    SampleStatusFound(records, "Attended");
  }

  /** Under the fixture a spelling of no known status, or a missing status, has no
      canonical form. */
  lemma CanonUnknownIsEmpty(s: string, records: seq<Participation>)
    requires SampleData(records)
    requires Lower(Strip(s)) == "unknown"
    ensures CanonStatus(Some(s), StatusOptions(records)) == ""
    ensures CanonStatus(None, StatusOptions(records)) == ""
  {
    var options := StatusOptions(records);
    SampleOptions(records);
    forall i | 0 <= i < |options|
      ensures Lower(options[i]) != "unknown"
    {
      SampleNotUnknown(options[i]);
    }
  }
}
