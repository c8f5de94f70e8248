/**
 Ordered string sets, the model of `std::set<std::string>` used by the
 sharing-graph builder: a set is kept as a strictly increasing sequence under
 the lexicographic order of `std::string::operator<`, so that iterating the
 set visits its elements in that order and `std::set_intersection` is a merge.
 */
module OrderedSets {

  /** The elements of a sequence. */
  function Elems<T>(s: seq<T>): set<T>
  {
    set x | x in s
  }

  /** No element occurs twice. */
  predicate NoDup<T(==)>(s: seq<T>)
  {
    forall i, j :: 0 <= i < j < |s| ==> s[i] != s[j]
  }

  /** A duplicate-free sequence has as many elements as its element set. */
  lemma {:induction false} NoDupCard<T>(s: seq<T>)
    requires NoDup(s)
    ensures |Elems(s)| == |s|
  {
    if s != [] {
      assert NoDup(s[1..]) by {
        forall i, j | 0 <= i < j < |s[1..]|
          ensures s[1..][i] != s[1..][j]
        {
          assert s[1..][i] == s[i + 1] && s[1..][j] == s[j + 1];
        }
      }
      NoDupCard(s[1..]);
      assert Elems(s) == Elems(s[1..]) + {s[0]};
      assert s[0] !in Elems(s[1..]) by {
        forall k | 0 <= k < |s[1..]|
          ensures s[1..][k] != s[0]
        {
          assert s[1..][k] == s[k + 1];
        }
      }
    }
  }

  /** Lexicographic order on strings, comparing characters by code point:
      a proper prefix is smaller, otherwise the first differing character decides. */
  predicate Below(a: string, b: string)
    decreases |a|
  {
    |b| > 0 && (|a| == 0 || a[0] < b[0] || (a[0] == b[0] && Below(a[1..], b[1..])))
  }

  lemma {:induction false} BelowIrreflexive(a: string)
    ensures !Below(a, a)
    decreases |a|
  {
    if |a| > 0 {
      BelowIrreflexive(a[1..]);
    }
  }

  lemma {:induction false} BelowTransitive(a: string, b: string, c: string)
    requires Below(a, b) && Below(b, c)
    ensures Below(a, c)
    decreases |a|
  {
    if |a| > 0 && a[0] == b[0] && b[0] == c[0] {
      BelowTransitive(a[1..], b[1..], c[1..]);
    }
  }

  lemma {:induction false} BelowTotal(a: string, b: string)
    requires a != b
    ensures Below(a, b) || Below(b, a)
    decreases |a|
  {
    if |a| > 0 && |b| > 0 && a[0] == b[0] {
      assert a[1..] != b[1..] by {
        assert a == [a[0]] + a[1..] && b == [b[0]] + b[1..];
      }
      BelowTotal(a[1..], b[1..]);
    }
  }

  /** Every element is below every later one. */
  predicate StrictlySorted(s: seq<string>)
  {
    forall i, j :: 0 <= i < j < |s| ==> Below(s[i], s[j])
  }

  /** `std::set<std::string>`: strictly increasing, hence duplicate-free. */
  type StringSet = s: seq<string> | StrictlySorted(s) witness []

  lemma SortedNoDup(s: StringSet)
    ensures NoDup(s)
  {
    forall i, j | 0 <= i < j < |s|
      ensures s[i] != s[j]
    {
      BelowIrreflexive(s[i]);
    }
  }

  /** The head of a sorted set is below every other element. */
  lemma HeadBelowRest(s: StringSet, x: string)
    requires |s| > 0 && x in s[1..]
    ensures Below(s[0], x)
  {
    var k :| 0 <= k < |s[1..]| && s[1..][k] == x;
    assert s[k + 1] == x;
  }

  /** `set::insert`: adds one element and keeps the order. */
  function Insert(s: StringSet, x: string): (r: StringSet)
    ensures Elems(r) == Elems(s) + {x}
    ensures |r| == if x in s then |s| else |s| + 1
  {
    if |s| == 0 then [x]
    else if x == s[0] then s
    else if Below(x, s[0]) then
      InsertFront(s, x)
    else
      BelowTotal(x, s[0]);
      var tail := Insert(s[1..], x);
      assert forall y | y in tail :: Below(s[0], y) by {
        forall y | y in tail
          ensures Below(s[0], y)
        {
          assert y in Elems(tail);
          if y != x {
            HeadBelowRest(s, y);
          }
        }
      }
      assert Elems(s) == {s[0]} + Elems(s[1..]);
      assert x in s <==> x in s[1..];
      var r := Cons(s[0], tail);
      assert Elems(r) == {s[0]} + Elems(tail);
      r
  }

  /** Puts an element below every element of the set in front of it. */
  function InsertFront(s: StringSet, x: string): (r: StringSet)
    requires |s| > 0 && Below(x, s[0])
    ensures r == [x] + s
    ensures x !in s
  {
    forall y | y in s[1..]
      ensures Below(x, y)
    {
      HeadBelowRest(s, y);
      BelowTransitive(x, s[0], y);
    }
    BelowIrreflexive(x);
    Cons(x, s)
  }

  /** Prepends an element below all others. */
  function Cons(x: string, s: StringSet): (r: StringSet)
    requires forall y | y in s :: Below(x, y)
    ensures r == [x] + s
  {
    var r := [x] + s;
    assert forall i, j | 0 <= i < j < |r| :: Below(r[i], r[j]) by {
      forall i, j | 0 <= i < j < |r|
        ensures Below(r[i], r[j])
      {
        assert r[j] == s[j - 1];
        if i > 0 {
          assert r[i] == s[i - 1];
        }
      }
    }
    r
  }

  /** `std::set_intersection` of two sorted ranges: the sorted merge that keeps
      the elements present in both. */
  function Intersect(a: StringSet, b: StringSet): (r: StringSet)
    ensures Elems(r) == Elems(a) * Elems(b)
    decreases |a| + |b|
  {
    if |a| == 0 || |b| == 0 then []
    else if Below(a[0], b[0]) then
      NotInLater(b, a[0]);
      assert Elems(a) == {a[0]} + Elems(a[1..]);
      Intersect(a[1..], b)
    else if Below(b[0], a[0]) then
      NotInLater(a, b[0]);
      assert Elems(b) == {b[0]} + Elems(b[1..]);
      Intersect(a, b[1..])
    else
      assert a[0] == b[0] by {
        if a[0] != b[0] { BelowTotal(a[0], b[0]); }
      }
      var tail := Intersect(a[1..], b[1..]);
      assert forall y | y in tail :: Below(a[0], y) by {
        forall y | y in tail
          ensures Below(a[0], y)
        {
          assert y in Elems(tail);
          HeadBelowRest(a, y);
        }
      }
      BelowIrreflexive(a[0]);
      assert a[0] !in a[1..] && a[0] !in b[1..] by {
        if a[0] in a[1..] { HeadBelowRest(a, a[0]); }
        if a[0] in b[1..] { HeadBelowRest(b, a[0]); }
      }
      assert Elems(a) == {a[0]} + Elems(a[1..]);
      assert Elems(b) == {b[0]} + Elems(b[1..]);
      var r := Cons(a[0], tail);
      assert Elems(r) == {a[0]} + Elems(tail);
      r
  }

  /** An element below the head of a sorted set is not in it. */
  lemma NotInLater(s: StringSet, x: string)
    requires |s| > 0 && Below(x, s[0])
    ensures x !in s
  {
    BelowIrreflexive(x);
    if x in s[1..] {
      HeadBelowRest(s, x);
      BelowTransitive(x, s[0], x);
    }
  }

  /** The number of names two sets share is the length of their intersection. */
  lemma IntersectCard(a: StringSet, b: StringSet)
    ensures |Intersect(a, b)| == |Elems(a) * Elems(b)|
  {
    SortedNoDup(Intersect(a, b));
    NoDupCard(Intersect(a, b));
  }

  /** Concatenating two duplicate-free sequences with no common element gives
      a duplicate-free sequence. */
  lemma NoDupConcat<T>(a: seq<T>, b: seq<T>)
    requires NoDup(a) && NoDup(b)
    requires forall x | x in a :: x !in b
    ensures NoDup(a + b)
  {
    var c := a + b;
    forall i, j | 0 <= i < j < |c|
      ensures c[i] != c[j]
    {
      if i < |a| && j >= |a| {
        assert c[i] in a && c[j] == b[j - |a|];
      } else if i >= |a| {
        assert c[i] == b[i - |a|] && c[j] == b[j - |a|];
      }
    }
  }
}
