/**
 * The history validators: single checks that either pass or fail with a
 * message naming the field (the Python code raises `ValueError` with that
 * message), and the range test on dates.
 */
module Validators {
  import opened Wrappers
  import opened Text
  import opened Calendar

  const MaxLenShort := 120
  const MaxLenLong := 500

  /** The Python values a validator can be handed. `PyBool` is a subclass of `int`;
      `PyList` stands for any iterable other than `str` and `bytes`, in iteration
      order; `PyOther` for anything that is not iterable. */
  datatype PyValue =
    | PyNone
    | PyStr(s: string)
    | PyBytes(b: seq<int>)
    | PyInt(n: int)
    | PyBool(flag: bool)
    | PyList(items: seq<PyValue>)
    | PyOther

  /** `isinstance(v, int)`, which holds for booleans too. */
  predicate IsInt(v: PyValue)
  {
    v.PyInt? || v.PyBool?
  }

  /** The integer an `int` value stands for: `True` is 1 and `False` is 0. */
  function IntOf(v: PyValue): int
    requires IsInt(v)
  {
    if v.PyInt? then v.n else if v.flag then 1 else 0
  }

  /** `require(value, field)`. */
  function Require(value: PyValue, field: string): (r: Outcome)
    ensures r.Fail? <==> value == PyNone || value == PyStr("")
    ensures r.Fail? ==> r.message == field + " is required"
  {
    if value == PyNone || value == PyStr("") then Fail(field + " is required") else Pass
  }

  /** `max_len(value, limit, field)`. */
  function MaxLen(value: string, limit: int, field: string): (r: Outcome)
    ensures r.Pass? <==> |value| <= limit || value == ""
    ensures r.Fail? ==> r.message == field + " must be ≤ " + Decimal(limit) + " characters"
  {
    if value != "" && |value| > limit then Fail(field + " must be ≤ " + Decimal(limit) + " characters")
    else Pass
  }

  /** `non_negative_int(n, field)`. */
  function NonNegativeInt(n: PyValue, field: string): (r: Outcome)
    ensures r.Pass? <==> IsInt(n) && IntOf(n) >= 0
    ensures r.Fail? ==> r.message == field + " must be a non-negative integer"
  {
    if !IsInt(n) || IntOf(n) < 0 then Fail(field + " must be a non-negative integer") else Pass
  }

  /** `positive_int(n, field)`. */
  function PositiveInt(n: PyValue, field: string): (r: Outcome)
    ensures r.Pass? <==> IsInt(n) && IntOf(n) > 0
    ensures r.Fail? ==> r.message == field + " must be a positive integer"
  {
    if !IsInt(n) || IntOf(n) <= 0 then Fail(field + " must be a positive integer") else Pass
  }

  /** An item `list_of_strings` accepts: a string that is not blank. */
  predicate ValidItem(x: PyValue)
  {
    x.PyStr? && !IsBlank(x.s)
  }

  predicate AllValidItems(items: seq<PyValue>)
  {
    forall i :: 0 <= i < |items| ==> ValidItem(items[i])
  }

  /** What `list_of_strings(xs, field)` does, checked in the order of the code: a
      missing value, a value that is not a list, a bad item, and only then an empty list. */
  function ListOfStringsOutcome(xs: PyValue, field: string): Outcome
  {
    if xs.PyNone? then Fail(field + " is required")
    else if !xs.PyList? then Fail(field + " must be a list of strings")
    else if !AllValidItems(xs.items) then Fail(field + " contains an invalid item")
    else if xs.items == [] then Fail(field + " must not be empty")
    else Pass
  }

  /** `list_of_strings(xs, field)`: the loop over the items with its `ok` flag. */
  method ListOfStrings(xs: PyValue, field: string) returns (r: Outcome)
    ensures r == ListOfStringsOutcome(xs, field)
  {
    if xs.PyNone? {
      return Fail(field + " is required");
    }
    if !xs.PyList? {
      return Fail(field + " must be a list of strings");
    }
    var ok := false;
    var i := 0;
    while i < |xs.items|
      invariant 0 <= i <= |xs.items|
      invariant ok <==> i > 0
      invariant forall k :: 0 <= k < i ==> ValidItem(xs.items[k])
    {
      var x := xs.items[i];
      ok := true;
      if !x.PyStr? || IsBlank(x.s) {
        assert !ValidItem(xs.items[i]);
        return Fail(field + " contains an invalid item");
      }
      i := i + 1;
    }
    assert AllValidItems(xs.items);
    if !ok {
      return Fail(field + " must not be empty");
    }
    return Pass;
  }

  /** A list passes exactly when it is a non-empty list of non-blank strings. */
  lemma ListOfStringsPassIff(xs: PyValue, field: string)
    ensures ListOfStringsOutcome(xs, field).Pass? <==>
      xs.PyList? && |xs.items| > 0 && forall i :: 0 <= i < |xs.items| ==> xs.items[i].PyStr? && !AllSpace(xs.items[i].s)
  {
    if xs.PyList? {
      forall i | 0 <= i < |xs.items| && xs.items[i].PyStr?
        ensures ValidItem(xs.items[i]) <==> !AllSpace(xs.items[i].s)
      {
        BlankIffAllSpace(xs.items[i].s);
      }
    }
  }

  /** A bare string or bytes value is not accepted as a list, even when its
      characters would be valid items. */
  lemma StringIsNotAList(s: string, field: string)
    ensures ListOfStringsOutcome(PyStr(s), field) == Fail(field + " must be a list of strings")
    ensures ListOfStringsOutcome(PyBytes([]), field) == Fail(field + " must be a list of strings")
  {
  }

  /** An empty list, and a list of integers, both fail; the integers are reported as
      invalid items. */
  lemma ListOfStringsRejects(field: string)
    ensures ListOfStringsOutcome(PyList([]), field) == Fail(field + " must not be empty")
    ensures ListOfStringsOutcome(PyList([PyInt(1), PyInt(2)]), field) == Fail(field + " contains an invalid item")
  {
    assert !ValidItem(PyList([PyInt(1), PyInt(2)]).items[0]);
  }

  /** A value `require` accepts can still fail `list_of_strings`: a blank string
      passes the first and is rejected as an item by the second. */
  lemma BlankPassesRequireNotListItem(s: string, field: string)
    requires s != "" && AllSpace(s)
    ensures Require(PyStr(s), field).Pass?
    ensures ListOfStringsOutcome(PyList([PyStr(s)]), field) == Fail(field + " contains an invalid item")
  {
    BlankIffAllSpace(s);
    assert !ValidItem(PyList([PyStr(s)]).items[0]);
  }

  /** A positive integer is non-negative; booleans are integers, so `True` is positive
      and `False` non-negative. */
  lemma PositiveIsNonNegative(n: PyValue, field: string)
    ensures PositiveInt(n, field).Pass? ==> NonNegativeInt(n, field).Pass?
    ensures PositiveInt(PyBool(true), field).Pass? && NonNegativeInt(PyBool(false), field).Pass?
    ensures PositiveInt(PyBool(false), field).Fail? && NonNegativeInt(PyStr("1"), field).Fail?
  {
  }

  /** A value exactly at the limit passes; one character more fails. The length
      test uses `len`, which counts code points. */
  lemma MaxLenBoundary(value: string, c: char, field: string)
    ensures MaxLen(value, |value|, field).Pass?
    ensures MaxLen(value + [c], |value|, field).Fail?
  {
  }

  /** `capacity_ok(current, total)`. */
  function CapacityOk(current: int, total: int): (r: Outcome)
    ensures r.Pass? <==> current <= total
    ensures r.Fail? ==> r.message == "capacity_current cannot exceed capacity_total"
  {
    if current > total then Fail("capacity_current cannot exceed capacity_total") else Pass
  }

  /** `date_in_range(d, start, end)`: the body tests `d < start` and `d > end` and
      skips a bound that is `None`. */
  function DateInRange(d: Date, start: Option<Date>, end: Option<Date>): (r: bool)
    ensures r <==> (start.None? || DateLe(start.value, d)) && (end.None? || DateLe(d, end.value))
  {
    if start.Some? && DateLt(d, start.value) then false
    else if end.Some? && DateLt(end.value, d) then false
    else
      assert start.Some? ==> DateLe(start.value, d) by {
        if start.Some? { DateKeyOrder(d, start.value); DateKeyOrder(start.value, d); }
      }
      assert end.Some? ==> DateLe(d, end.value) by {
        if end.Some? { DateKeyOrder(d, end.value); DateKeyOrder(end.value, d); }
      }
      true
  }

  /** With no bounds every date is in range; both bounds are inclusive. */
  lemma DateInRangeBounds(d: Date, start: Date, end: Date)
    ensures DateInRange(d, None, None)
    ensures DateInRange(start, Some(start), None) && DateInRange(end, None, Some(end))
    ensures DateInRange(d, Some(start), Some(end)) ==> DateLe(start, d) && DateLe(d, end)
    ensures DateLt(end, start) ==> !DateInRange(d, Some(start), Some(end))
  {
    if DateLt(end, start) && DateInRange(d, Some(start), Some(end)) {
      DateKeyOrder(start, d);
      DateKeyOrder(d, end);
      DateKeyOrder(end, start);
    }
  }
}
