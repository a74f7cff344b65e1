/**
 * Reading a table back out: the rows of a map keyed by row id, in id order,
 * and `WHERE` as a filter that keeps the order of the rows it passes.
 */
module Rows {
  import opened Sorting

  /** The rows whose id is below `n`, in ascending id order. */
  function ValuesBelow<V(!new)>(m: map<nat, V>, n: nat): (r: seq<V>)
    ensures forall v :: v in r <==> exists k :: 0 <= k < n && k in m && m[k] == v
  {
    if n == 0 then []
    else
      var prefix := ValuesBelow(m, n - 1);
      var last := if n - 1 in m then [m[n - 1]] else [];
      assert forall v :: v in prefix + last <==> v in prefix || v in last;
      prefix + last
  }

  /** Distinct keys holding distinct rows give a listing without repeats. */
  lemma {:induction false} ValuesBelowDistinct<V(!new)>(m: map<nat, V>, n: nat)
    requires forall k1, k2 :: k1 in m && k2 in m && k1 != k2 ==> m[k1] != m[k2]
    ensures Distinct(ValuesBelow(m, n))
  {
    if n > 0 {
      ValuesBelowDistinct(m, n - 1);
      var prefix := ValuesBelow(m, n - 1);
      if n - 1 in m {
        assert m[n - 1] !in prefix;
        var r := prefix + [m[n - 1]];
        forall i, j | 0 <= i < j < |r| ensures r[i] != r[j] {
          if j == |r| - 1 {
            assert r[i] in prefix;
          }
        }
      }
    }
  }

  /** The rows of `s` that satisfy `p`, in their original order. */
  function Filter<T>(s: seq<T>, p: T -> bool): seq<T>
  {
    if s == [] then []
    else (if p(s[0]) then [s[0]] else []) + Filter(s[1..], p)
  }

  /** A filtered listing holds exactly the rows that pass the filter. */
  lemma {:induction false} FilterMembers<T>(s: seq<T>, p: T -> bool)
    ensures forall x :: x in Filter(s, p) <==> x in s && p(x)
    ensures forall i :: 0 <= i < |Filter(s, p)| ==> p(Filter(s, p)[i])
  {
    if s != [] {
      FilterMembers(s[1..], p);
      assert s == [s[0]] + s[1..];
    }
  }

  /** Filtering keeps no row more often than the table has it, so a listing without repeats stays without. */
  lemma {:induction false} FilterDistinct<T(!new)>(s: seq<T>, p: T -> bool)
    ensures forall x :: multiset(Filter(s, p))[x] <= multiset(s)[x]
    ensures Distinct(s) ==> Distinct(Filter(s, p))
  {
    if s != [] {
      FilterDistinct(s[1..], p);
      FilterMembers(s[1..], p);
      assert s == [s[0]] + s[1..];
      var r := Filter(s, p);
      assert r == (if p(s[0]) then [s[0]] else []) + Filter(s[1..], p);
      DistinctCount(s);
      DistinctCount(r);
    }
  }

  lemma {:induction false} FilterAppend<T(!new)>(a: seq<T>, b: seq<T>, p: T -> bool)
    ensures Filter(a + b, p) == Filter(a, p) + Filter(b, p)
  {
    if a == [] {
      assert a + b == b;
    } else {
      var ab := a + b;
      assert ab != [] && ab[0] == a[0] && ab[1..] == a[1..] + b;
      FilterAppend(a[1..], b, p);
      var h := if p(a[0]) then [a[0]] else [];
      calc {
        Filter(ab, p);
        h + Filter(a[1..] + b, p);
        h + (Filter(a[1..], p) + Filter(b, p));
        (h + Filter(a[1..], p)) + Filter(b, p);
        Filter(a, p) + Filter(b, p);
      }
    }
  }

  /** Two tables that agree on every row `p` selects give the same filtered listing. */
  lemma {:induction false} FilterValuesAgree<V(!new)>(m1: map<nat, V>, m2: map<nat, V>, n: nat, p: V -> bool)
    requires forall k :: k in m1 && p(m1[k]) <==> k in m2 && p(m2[k])
    requires forall k :: k in m1 && k in m2 && p(m1[k]) ==> m1[k] == m2[k]
    ensures Filter(ValuesBelow(m1, n), p) == Filter(ValuesBelow(m2, n), p)
  {
    if n > 0 {
      var k := n - 1;
      FilterValuesAgree(m1, m2, k, p);
      var last1 := if k in m1 then [m1[k]] else [];
      var last2 := if k in m2 then [m2[k]] else [];
      assert ValuesBelow(m1, n) == ValuesBelow(m1, k) + last1;
      assert ValuesBelow(m2, n) == ValuesBelow(m2, k) + last2;
      FilterAppend(ValuesBelow(m1, k), last1, p);
      FilterAppend(ValuesBelow(m2, k), last2, p);
      assert Filter(last1, p) == Filter(last2, p) by {
        if k in m1 && p(m1[k]) {
          assert last1 == last2;
        } else {
          assert Filter(last1, p) == [] && Filter(last2, p) == [];
        }
      }
    }
  }
}
