/**
 Sequences ordered by a strict relation. Both the catalog order of rows (by
 position) and the ranking order are strict orders, and a sequence that is
 strictly ordered is determined by the set of its elements.
 */
module Sequences {

  /** Every earlier element is related to every later one. */
  ghost predicate StrictlySorted<T>(s: seq<T>, lt: (T, T) -> bool) {
    forall i, j :: 0 <= i < j < |s| ==> lt(s[i], s[j])
  }

  /** Two sequences strictly sorted by the same asymmetric relation and holding the
      same elements are equal: the order fixes the sequence. */
  lemma {:induction false} SortedUnique<T>(a: seq<T>, b: seq<T>, lt: (T, T) -> bool)
    requires forall x, y :: lt(x, y) ==> !lt(y, x)
    requires StrictlySorted(a, lt) && StrictlySorted(b, lt)
    requires forall x :: x in a <==> x in b
    ensures a == b
    decreases |a|
  {
    if |a| > 0 {
      assert a[0] in a;
    }
    if |b| > 0 {
      assert b[0] in b;
    }
    if |a| > 0 && |b| > 0 {
      var k :| 0 <= k < |b| && b[k] == a[0];
      var m :| 0 <= m < |a| && a[m] == b[0];
      assert a[0] == b[0];
      forall x | x in a[1..]
        ensures x in b[1..]
      {
        var i :| 1 <= i < |a| && a[i] == x;
        assert lt(a[0], a[i]);
        assert x in a;
        var j :| 0 <= j < |b| && b[j] == x;
        assert j != 0;
        assert b[1..][j - 1] == x;
      }
      forall x | x in b[1..]
        ensures x in a[1..]
      {
        var j :| 1 <= j < |b| && b[j] == x;
        assert lt(b[0], b[j]);
        assert x in b;
        var i :| 0 <= i < |a| && a[i] == x;
        assert i != 0;
        assert a[1..][i - 1] == x;
      }
      SortedUnique(a[1..], b[1..], lt);
      assert a == [a[0]] + a[1..];
      assert b == [b[0]] + b[1..];
    }
  }

  /** Putting an element related to every element of a sorted sequence in front
      keeps it sorted. */
  lemma ConsSorted<T>(h: T, s: seq<T>, lt: (T, T) -> bool)
    requires StrictlySorted(s, lt)
    requires forall y :: y in s ==> lt(h, y)
    ensures StrictlySorted([h] + s, lt)
  {
    var r := [h] + s;
    forall i, j | 0 <= i < j < |r|
      ensures lt(r[i], r[j])
    {
      if i > 0 {
        assert r[i] == s[i - 1] && r[j] == s[j - 1];
      } else {
        assert r[j] in s;
      }
    }
  }

  /** In a sorted sequence, everything in a prefix is related to everything
      after it. */
  lemma PrefixBeforeRest<T>(s: seq<T>, n: nat, lt: (T, T) -> bool)
    requires StrictlySorted(s, lt) && n <= |s|
    ensures forall x, y :: x in s && x !in s[..n] && y in s[..n] ==> lt(y, x)
  {
    forall x, y | x in s && x !in s[..n] && y in s[..n]
      ensures lt(y, x)
    {
      var j :| 0 <= j < |s| && s[j] == x;
      var i :| 0 <= i < n && s[..n][i] == y;
    }
  }
}
