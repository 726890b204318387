/** Querysets as sequences of row ids: filtering and slicing. */
module Batches {

  ghost predicate Distinct<T>(s: seq<T>)
  {
    forall i, j :: 0 <= i < j < |s| ==> s[i] != s[j]
  }

  /** `order` is the order a query over `table` returns its rows in: every row exactly once. */
  ghost predicate ListsTable<K(!new), V>(order: seq<K>, table: map<K, V>)
  {
    Distinct(order) && forall id {:trigger id in order} :: id in order <==> id in table
  }

  /** The elements of `s` that `keep` accepts, in their original order (a filtered queryset). */
  function Select<T(!new)>(s: seq<T>, keep: T -> bool): (r: seq<T>)
    ensures |r| <= |s|
    ensures forall x :: x in r <==> x in s && keep(x)
  {
    if s == [] then []
    else if keep(s[0]) then [s[0]] + Select(s[1..], keep)
    else Select(s[1..], keep)
  }

  /** A filter that accepts every element keeps the whole sequence. */
  lemma {:induction false} SelectAll<T(!new)>(s: seq<T>, keep: T -> bool)
    requires forall x :: x in s ==> keep(x)
    ensures Select(s, keep) == s
  {
    if s != [] {
      assert s[0] in s;
      assert forall x :: x in s[1..] ==> x in s;
      SelectAll(s[1..], keep);
      assert s == [s[0]] + s[1..];
    }
  }

  /** A queryset slice `[:n]`: the first `n` elements, or all of them when there are fewer. */
  function Take<T>(s: seq<T>, n: nat): (r: seq<T>)
    ensures |r| <= n && |r| <= |s|
    ensures r == s[..|r|]
    ensures |s| <= n ==> r == s
    ensures |s| > n ==> |r| == n
    ensures forall x :: x in r ==> x in s
  {
    if |s| <= n then s else s[..n]
  }

  /** Dropping the first row of a duplicate-free sequence leaves it duplicate-free, without that row. */
  lemma DistinctTail<T>(s: seq<T>)
    requires Distinct(s) && s != []
    ensures Distinct(s[1..]) && s[0] !in s[1..]
  {
    forall i, j | 0 <= i < j < |s[1..]| ensures s[1..][i] != s[1..][j] {
      assert s[1..][i] == s[i + 1] && s[1..][j] == s[j + 1];
    }
    forall k | 0 <= k < |s[1..]| ensures s[1..][k] != s[0] {
      assert s[1..][k] == s[k + 1];
    }
  }

  lemma {:induction false} SelectDistinct<T(!new)>(s: seq<T>, keep: T -> bool)
    requires Distinct(s)
    ensures Distinct(Select(s, keep))
  {
    if s != [] {
      DistinctTail(s);
      SelectDistinct(s[1..], keep);
      if keep(s[0]) {
        var rest := Select(s[1..], keep);
        forall i, j | 0 <= i < j < |[s[0]] + rest| ensures ([s[0]] + rest)[i] != ([s[0]] + rest)[j] {
          if i == 0 {
            assert ([s[0]] + rest)[j] == rest[j - 1];
            assert rest[j - 1] in rest;
          } else {
            assert ([s[0]] + rest)[i] == rest[i - 1] && ([s[0]] + rest)[j] == rest[j - 1];
          }
        }
      }
    }
  }

  /** A duplicate-free sequence has as many elements as the set of its elements. */
  lemma {:induction false} DistinctCard<T>(s: seq<T>)
    requires Distinct(s)
    ensures |set x | x in s| == |s|
  {
    if s != [] {
      DistinctTail(s);
      DistinctCard(s[1..]);
      assert (set x | x in s) == (set x | x in s[1..]) + {s[0]};
    }
  }

  /** Filtering a sequence with one more element at its end. */
  lemma {:induction false} SelectSnoc<T(!new)>(s: seq<T>, x: T, keep: T -> bool)
    ensures Select(s + [x], keep) == Select(s, keep) + if keep(x) then [x] else []
  {
    if s == [] {
      assert [x][1..] == [];
    } else {
      assert (s + [x])[0] == s[0];
      assert (s + [x])[1..] == s[1..] + [x];
      SelectSnoc(s[1..], x, keep);
    }
  }

  /** A slice of a queryset of distinct rows is itself distinct and drawn from it. */
  lemma TakeOfDistinct<T>(s: seq<T>, n: nat)
    requires Distinct(s)
    ensures Distinct(Take(s, n))
    ensures forall x :: x in Take(s, n) ==> x in s
  {
  }

  /** The slice `[:n]` of a filtered query over a whole table: duplicate-free, `n` rows or all
      the rows that pass the filter if there are fewer, and then the whole filtered query. */
  lemma SliceOfFilteredTable<V>(order: seq<nat>, table: map<nat, V>, keep: nat -> bool, n: nat)
    requires ListsTable(order, table)
    ensures var b := Take(Select(order, keep), n);
      var pending := set id: nat | id in table && keep(id);
      && Distinct(b)
      && |b| == (if |pending| <= n then |pending| else n)
      && (|pending| <= n ==> b == Select(order, keep))
  {
    var q := Select(order, keep);
    SelectDistinct(order, keep);
    DistinctCard(q);
    assert |set x: nat | x in q| == |q|;
    assert (set x: nat | x in q) == set id: nat | id in table && keep(id);
    TakeOfDistinct(q, n);
  }
}
