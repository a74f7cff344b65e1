/**
 * Ordering rows by a text key: `ORDER BY key DESC` in SQLite and
 * `sort().reverse()` in JavaScript. Both are modelled as an insertion sort
 * into ascending key order followed by a reversal; SQL leaves the order of
 * equal keys open, and this is one of the orders it may produce.
 */
module Sorting {
  import opened Text

  predicate SortedBy<T>(s: seq<T>, key: T -> string) {
    forall i, j :: 0 <= i < j < |s| ==> Le(key(s[i]), key(s[j]))
  }

  predicate SortedDescBy<T>(s: seq<T>, key: T -> string) {
    forall i, j :: 0 <= i < j < |s| ==> Le(key(s[j]), key(s[i]))
  }

  predicate Distinct<T(==)>(s: seq<T>) {
    forall i, j :: 0 <= i < j < |s| ==> s[i] != s[j]
  }

  /** `x` placed before the first element whose key is not smaller. */
  function Insert<T>(x: T, s: seq<T>, key: T -> string): (r: seq<T>)
    requires SortedBy(s, key)
    ensures SortedBy(r, key)
    ensures multiset(r) == multiset(s) + multiset{x}
  {
    if s == [] then [x]
    else if Le(key(x), key(s[0])) then
      InsertFront(x, s, key);
      [x] + s
    else
      LeTotal(key(x), key(s[0]));
      var t := Insert(x, s[1..], key);
      assert s == [s[0]] + s[1..];
      HeadBelow(s[0], x, s[1..], t, key);
      ConsSorted(s[0], t, key);
      [s[0]] + t
  }

  lemma ConsSorted<T>(h: T, t: seq<T>, key: T -> string)
    requires SortedBy(t, key)
    requires forall j :: 0 <= j < |t| ==> Le(key(h), key(t[j]))
    ensures SortedBy([h] + t, key)
  {
    var r := [h] + t;
    forall i, j | 0 <= i < j < |r| ensures Le(key(r[i]), key(r[j])) {
      if i > 0 { assert r[i] == t[i - 1] && r[j] == t[j - 1]; } else { assert r[j] == t[j - 1]; }
    }
  }

  lemma InsertFront<T>(x: T, s: seq<T>, key: T -> string)
    requires SortedBy(s, key) && s != [] && Le(key(x), key(s[0]))
    ensures SortedBy([x] + s, key)
  {
    forall j | 0 <= j < |s| ensures Le(key(x), key(s[j])) {
      if j > 0 {
        LeTransitive(key(x), key(s[0]), key(s[j]));
      }
    }
    ConsSorted(x, s, key);
  }

  /** After inserting `x` into the tail, everything still sorts after the head. */
  lemma HeadBelow<T>(h: T, x: T, rest: seq<T>, t: seq<T>, key: T -> string)
    requires SortedBy([h] + rest, key)
    requires Le(key(h), key(x))
    requires multiset(t) == multiset(rest) + multiset{x}
    ensures forall j :: 0 <= j < |t| ==> Le(key(h), key(t[j]))
  {
    forall j | 0 <= j < |t| ensures Le(key(h), key(t[j])) {
      assert t[j] in multiset(t);
      if t[j] != x {
        assert t[j] in multiset(rest);
        var k :| 0 <= k < |rest| && rest[k] == t[j];
        assert ([h] + rest)[0] == h && ([h] + rest)[k + 1] == rest[k];
        assert Le(key(([h] + rest)[0]), key(([h] + rest)[k + 1]));
      }
    }
  }

  /** `s` in ascending key order. */
  function Sort<T>(s: seq<T>, key: T -> string): (r: seq<T>)
    ensures SortedBy(r, key)
    ensures multiset(r) == multiset(s)
  {
    if s == [] then []
    else
      assert s == [s[0]] + s[1..];
      Insert(s[0], Sort(s[1..], key), key)
  }

  function Reverse<T>(s: seq<T>): (r: seq<T>)
    ensures |r| == |s|
    ensures forall i :: 0 <= i < |s| ==> r[i] == s[|s| - 1 - i]
    ensures multiset(r) == multiset(s)
  {
    if s == [] then []
    else
      assert s == [s[0]] + s[1..];
      Reverse(s[1..]) + [s[0]]
  }

  /** `ORDER BY key DESC`: descending key order, a permutation of `s`. */
  function SortDesc<T>(s: seq<T>, key: T -> string): (r: seq<T>)
    ensures SortedDescBy(r, key)
    ensures multiset(r) == multiset(s)
  {
    Reverse(Sort(s, key))
  }

  /** A sequence has no repeated element exactly when its multiset holds each element at most once. */
  lemma {:induction false} DistinctCount<T>(s: seq<T>)
    ensures Distinct(s) <==> forall x :: multiset(s)[x] <= 1
  {
    if s != [] {
      var t := s[1..];
      assert s == [s[0]] + t;
      DistinctCount(t);
      assert Distinct(s) <==> s[0] !in t && Distinct(t) by {
        if Distinct(s) {
          assert forall j :: 0 <= j < |t| ==> t[j] == s[j + 1];
        }
        if s[0] !in t && Distinct(t) {
          forall i, j | 0 <= i < j < |s| ensures s[i] != s[j] {
            if i == 0 {
              assert s[j] == t[j - 1];
            } else {
              assert s[i] == t[i - 1] && s[j] == t[j - 1];
            }
          }
        }
      }
      var ms, mt := multiset(s), multiset(t);
      assert ms == multiset{s[0]} + mt;
      assert s[0] !in t <==> mt[s[0]] == 0;
      if forall x :: ms[x] <= 1 {
        assert ms[s[0]] == 1 + mt[s[0]];
        assert forall x :: mt[x] <= ms[x];
      }
      if s[0] !in t && forall x :: mt[x] <= 1 {
        forall x ensures ms[x] <= 1 {
          if x == s[0] { assert ms[x] == 1; } else { assert ms[x] == mt[x]; }
        }
      }
    }
  }

  /** Reordering keeps elements distinct. */
  lemma DistinctPermutation<T>(a: seq<T>, b: seq<T>)
    requires multiset(a) == multiset(b)
    requires Distinct(a)
    ensures Distinct(b)
  {
    DistinctCount(a);
    DistinctCount(b);
  }
}
