/**
 * Python's `sorted(xs, key=k, reverse=True)` and `xs.sort(key=k, reverse=True)`
 * on an integer key. Python's sort is stable, also with `reverse=True`:
 * elements with equal keys keep their input order. The model is an
 * insertion sort; its contract (non-increasing keys, a permutation, and
 * the same order within every class of equal keys) determines the result
 * uniquely, which `SortUnique` proves.
 */
module StableSort {

  /** Keys never increase along `s`. */
  predicate SortedDesc<T>(s: seq<T>, key: T -> int)
  {
    forall i, j :: 0 <= i < j < |s| ==> key(s[i]) >= key(s[j])
  }

  /** The elements of `s` whose key is `c`, in their order in `s`. */
  function KeyClass<T>(s: seq<T>, key: T -> int, c: int): (r: seq<T>)
    ensures |r| <= |s|
    ensures forall i :: 0 <= i < |r| ==> r[i] in s && key(r[i]) == c
    ensures forall i :: 0 <= i < |s| && key(s[i]) == c ==> s[i] in r
  {
    if s == [] then []
    else if key(s[0]) == c then [s[0]] + KeyClass(s[1..], key, c)
    else KeyClass(s[1..], key, c)
  }

  /** Every class of equal keys appears in the same order in `a` and `b`. */
  ghost predicate SameClasses<T>(a: seq<T>, b: seq<T>, key: T -> int)
  {
    forall c :: KeyClass(a, key, c) == KeyClass(b, key, c)
  }

  /** Puts `x` in front of the first element whose key is not greater than `x`'s. */
  function Insert<T>(x: T, s: seq<T>, key: T -> int): (r: seq<T>)
    ensures multiset(r) == multiset(s) + multiset{x}
  {
    if s == [] || key(s[0]) <= key(x) then
      [x] + s
    else
      assert s == [s[0]] + s[1..];
      [s[0]] + Insert(x, s[1..], key)
  }

  /** Inserting into a sorted sequence keeps it sorted. */
  lemma {:induction false} InsertSorted<T>(x: T, s: seq<T>, key: T -> int)
    requires SortedDesc(s, key)
    ensures SortedDesc(Insert(x, s, key), key)
  {
    if s != [] && key(s[0]) > key(x) {
      var t := Insert(x, s[1..], key);
      InsertSorted(x, s[1..], key);
      assert |t| == |s[1..]| + 1 by { assert |multiset(t)| == |multiset(s[1..])| + 1; }
      assert key(t[0]) <= key(s[0]) by {
        if |s| > 1 && key(s[1]) > key(x) { assert t[0] == s[1]; } else { assert t[0] == x; }
      }
      assert Insert(x, s, key) == [s[0]] + t;
    }
  }

  /** Inserting `x` puts it first in its own class and leaves every other class as it was. */
  lemma {:induction false} InsertClasses<T>(x: T, s: seq<T>, key: T -> int, c: int)
    ensures KeyClass(Insert(x, s, key), key, c) == if key(x) == c then [x] + KeyClass(s, key, c) else KeyClass(s, key, c)
  {
    var r := Insert(x, s, key);
    if s == [] || key(s[0]) <= key(x) {
      assert r[1..] == s;
    } else {
      var t := Insert(x, s[1..], key);
      assert r[1..] == t;
      InsertClasses(x, s[1..], key, c);
    }
  }

  /** The stable sort by descending key. */
  function Sort<T>(s: seq<T>, key: T -> int): (r: seq<T>)
    ensures SortedDesc(r, key)
    ensures multiset(r) == multiset(s)
    ensures |r| == |s|
    ensures SameClasses(r, s, key)
  {
    if s == [] then []
    else
      var t := Sort(s[1..], key);
      assert s == [s[0]] + s[1..];
      var r := Insert(s[0], t, key);
      InsertSorted(s[0], t, key);
      assert |r| == |multiset(r)| == |multiset(t)| + 1;
      assert SameClasses(r, s, key) by {
        forall c ensures KeyClass(r, key, c) == KeyClass(s, key, c) {
          InsertClasses(s[0], t, key, c);
        }
      }
      r
  }

  lemma KeyClassHead<T>(s: seq<T>, key: T -> int)
    requires s != []
    ensures KeyClass(s, key, key(s[0])) == [s[0]] + KeyClass(s[1..], key, key(s[0]))
    ensures forall c :: c != key(s[0]) ==> KeyClass(s, key, c) == KeyClass(s[1..], key, c)
  {
  }

  /** Two sorted sequences with the same classes start with the same element. */
  lemma HeadsAgree<T>(a: seq<T>, b: seq<T>, key: T -> int)
    requires SortedDesc(a, key) && SortedDesc(b, key)
    requires SameClasses(a, b, key)
    requires a != [] && b != []
    ensures a[0] == b[0]
  {
    var ka, kb := key(a[0]), key(b[0]);
    assert b[0] in KeyClass(b, key, kb);
    assert b[0] in KeyClass(a, key, kb);
    assert a[0] in KeyClass(a, key, ka);
    assert a[0] in KeyClass(b, key, ka);
    assert ka == kb by {
      var i :| 0 <= i < |a| && a[i] == b[0];
      var j :| 0 <= j < |b| && b[j] == a[0];
      assert kb <= ka && ka <= kb;
    }
    KeyClassHead(a, key);
    KeyClassHead(b, key);
    assert a[0] == KeyClass(a, key, ka)[0] == KeyClass(b, key, ka)[0] == b[0];
  }

  /** Dropping a common head keeps the classes equal. */
  lemma TailsSameClasses<T>(a: seq<T>, b: seq<T>, key: T -> int)
    requires a != [] && b != [] && a[0] == b[0]
    requires SameClasses(a, b, key)
    ensures SameClasses(a[1..], b[1..], key)
  {
    KeyClassHead(a, key);
    KeyClassHead(b, key);
    var k := key(a[0]);
    forall c ensures KeyClass(a[1..], key, c) == KeyClass(b[1..], key, c) {
      if c == k {
        assert KeyClass(a, key, c) == KeyClass(b, key, c);
        assert KeyClass(a[1..], key, c) == KeyClass(a, key, c)[1..];
        assert KeyClass(b[1..], key, c) == KeyClass(b, key, c)[1..];
      }
    }
  }

  /** Sortedness and equal classes determine a sequence: the stable sort is unique. */
  lemma {:induction false} SortUnique<T>(a: seq<T>, b: seq<T>, key: T -> int)
    requires SortedDesc(a, key) && SortedDesc(b, key)
    requires SameClasses(a, b, key)
    ensures a == b
    decreases |a|
  {
    if a != [] { assert a[0] in KeyClass(a, key, key(a[0])); }
    if b != [] { assert b[0] in KeyClass(b, key, key(b[0])); }
    if a != [] && b != [] {
      HeadsAgree(a, b, key);
      TailsSameClasses(a, b, key);
      SortUnique(a[1..], b[1..], key);
      assert a == [a[0]] + a[1..];
      assert b == [b[0]] + b[1..];
    }
  }

  /** Any sorted rearrangement that keeps the order within classes is `Sort(s, key)`. */
  lemma SortCharacterised<T>(s: seq<T>, r: seq<T>, key: T -> int)
    requires SortedDesc(r, key) && SameClasses(r, s, key)
    ensures r == Sort(s, key)
  {
    var t := Sort(s, key);
    assert SameClasses(r, t, key);
    SortUnique(r, t, key);
  }

  /** Sorting an already sorted sequence changes nothing. */
  lemma SortOfSorted<T>(s: seq<T>, key: T -> int)
    requires SortedDesc(s, key)
    ensures Sort(s, key) == s
  {
    SortCharacterised(s, s, key);
  }
}
