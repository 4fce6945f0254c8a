/** Row selection over an ordered table, as pandas boolean indexing and
    `dropna` do it: keep the rows that satisfy a condition, in table order. */
module Sequences {

  function Filter<T>(s: seq<T>, keep: T -> bool): (r: seq<T>)
    ensures |r| <= |s|
    ensures forall i :: 0 <= i < |r| ==> r[i] in s && keep(r[i])
    ensures forall i :: 0 <= i < |s| && keep(s[i]) ==> s[i] in r
  {
    if s == [] then [] else (if keep(s[0]) then [s[0]] else []) + Filter(s[1..], keep)
  }

  /** Filtering a concatenation filters each part and keeps them in order:
      the selection preserves the table's row order. */
  lemma {:induction false} FilterConcat<T>(a: seq<T>, b: seq<T>, keep: T -> bool)
    ensures Filter(a + b, keep) == Filter(a, keep) + Filter(b, keep)
  {
    if a == [] {
      assert a + b == b;
    } else {
      assert (a + b)[0] == a[0] && (a + b)[1..] == a[1..] + b;
      FilterConcat(a[1..], b, keep);
    }
  }

  /** Every kept row appears as often as in the table, every other row not at
      all: the selection adds no duplicates and drops no match. */
  lemma {:induction false} FilterCount<T>(s: seq<T>, keep: T -> bool, x: T)
    ensures multiset(Filter(s, keep))[x] == if keep(x) then multiset(s)[x] else 0
  {
    if s != [] {
      FilterCount(s[1..], keep, x);
      assert s == [s[0]] + s[1..];
    }
  }

  /** A selection is empty exactly when no row satisfies the condition. */
  lemma FilterEmpty<T>(s: seq<T>, keep: T -> bool)
    ensures Filter(s, keep) == [] <==> forall i :: 0 <= i < |s| ==> !keep(s[i])
  {
    if Filter(s, keep) == [] {
      forall i | 0 <= i < |s| ensures !keep(s[i]) {
        assert s[i] in s;
      }
    } else {
      var x := Filter(s, keep)[0];
      assert x in s && keep(x);
    }
  }

  /** The first row of a non-empty selection is the first row of the table
      that satisfies the condition. */
  lemma {:induction false} FilterFirst<T>(s: seq<T>, keep: T -> bool)
    requires Filter(s, keep) != []
    ensures exists i ::
      (0 <= i < |s| && s[i] == Filter(s, keep)[0] && keep(s[i])
       && forall j :: 0 <= j < i ==> !keep(s[j]))
  {
    if !keep(s[0]) {
      FilterFirst(s[1..], keep);
      var i :| 0 <= i < |s[1..]| && s[1..][i] == Filter(s[1..], keep)[0] && keep(s[1..][i])
        && forall j :: 0 <= j < i ==> !keep(s[1..][j]);
      assert s[i + 1] == Filter(s, keep)[0];
      forall j | 0 <= j < i + 1 ensures !keep(s[j]) {
        if j > 0 { assert s[j] == s[1..][j - 1]; }
      }
    } else {
      assert s[0] == Filter(s, keep)[0];
    }
  }
}
