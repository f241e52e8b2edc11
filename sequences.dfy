/** Python list helpers the rankers and views share: slicing, `set(...)` and comprehensions. */
module Sequences {

  /** Python's `s[:n]`: the first `n` elements, or, for a negative `n`, all but the last `-n`. */
  function Take<T>(s: seq<T>, n: int): (r: seq<T>)
    ensures 0 <= n ==> |r| == if n < |s| then n else |s|
    ensures n < 0 ==> |r| == if |s| + n > 0 then |s| + n else 0
    ensures r == s[..|r|]
  {
    if n >= 0 then (if n < |s| then s[..n] else s)
    else if |s| + n > 0 then s[..|s| + n]
    else []
  }

  /** `set(xs)`. */
  function Elems<T(!new)>(xs: seq<T>): (r: set<T>)
    ensures forall x :: x in r <==> x in xs
  {
    set x | x in xs
  }

  /** `[f(x) for x in s if p(x)]`, built from the last element back. */
  function FilterMap<T, U>(s: seq<T>, p: T -> bool, f: T -> U): seq<U>
  {
    if s == [] then []
    else FilterMap(s[..|s| - 1], p, f) + (if p(s[|s| - 1]) then [f(s[|s| - 1])] else [])
  }

  /** `u` is the image under `f` of some element of `s` that passes `p`. */
  ghost predicate ImageOfKept<T, U>(u: U, s: seq<T>, p: T -> bool, f: T -> U)
  {
    exists j :: 0 <= j < |s| && p(s[j]) && u == f(s[j])
  }

  /** The comprehension holds the images of exactly the elements that pass, and no more
      elements than `s`. */
  lemma {:induction false} FilterMapExactly<T, U>(s: seq<T>, p: T -> bool, f: T -> U)
    ensures |FilterMap(s, p, f)| <= |s|
    ensures forall i :: 0 <= i < |FilterMap(s, p, f)| ==> ImageOfKept(FilterMap(s, p, f)[i], s, p, f)
    ensures forall j :: 0 <= j < |s| && p(s[j]) ==> f(s[j]) in FilterMap(s, p, f)
  {
    if s != [] {
      var init := s[..|s| - 1];
      FilterMapExactly(init, p, f);
      var prev := FilterMap(init, p, f);
      var r := FilterMap(s, p, f);
      assert r == prev + (if p(s[|s| - 1]) then [f(s[|s| - 1])] else []);
      forall i | 0 <= i < |r| ensures ImageOfKept(r[i], s, p, f) {
        if i < |prev| {
          assert r[i] == prev[i];
          var j :| 0 <= j < |init| && p(init[j]) && prev[i] == f(init[j]);
          assert init[j] == s[j];
        } else {
          assert r[i] == f(s[|s| - 1]);
        }
      }
      forall j | 0 <= j < |s| && p(s[j]) ensures f(s[j]) in r {
        if j < |init| {
          assert init[j] == s[j];
        }
      }
    }
  }

  /** When every element passes, the comprehension is the image of the whole sequence. */
  lemma {:induction false} FilterMapAllKept<T, U>(s: seq<T>, p: T -> bool, f: T -> U)
    requires forall i :: 0 <= i < |s| ==> p(s[i])
    ensures |FilterMap(s, p, f)| == |s|
    ensures forall i :: 0 <= i < |s| ==> FilterMap(s, p, f)[i] == f(s[i])
  {
    if s != [] {
      FilterMapAllKept(s[..|s| - 1], p, f);
    }
  }

  /** A subset is no larger than the set that holds it. */
  lemma {:induction false} SubsetCard<T>(a: set<T>, b: set<T>)
    requires a <= b
    ensures |a| <= |b|
    decreases |a|
  {
    if a != {} {
      var x :| x in a;
      SubsetCard(a - {x}, b - {x});
    }
  }
}
