/**
 The ranking order of `rank_courses`: a stable sort, descending, on the keys
 (similarity, rating, has_quantum), where a missing rating sorts after every
 present rating (pandas' `na_position='last'`) and `True` sorts before
 `False`.
 */
module Ordering {
  import opened Optional
  import opened Catalog
  import opened Sequences
  import opened Scoring

  /** Rating order of the sort: a present rating is above a missing one. */
  predicate RatingAbove(a: Option<real>, b: Option<real>) {
    a.Some? && (b.None? || a.value > b.value)
  }

  /** `a` comes strictly before `b` on the three sort keys. */
  predicate Outranks(a: Scored, b: Scored) {
    || a.similarity > b.similarity
    || (a.similarity == b.similarity && RatingAbove(a.course.rating, b.course.rating))
    || (a.similarity == b.similarity && a.course.rating == b.course.rating
        && a.course.hasQuantum && !b.course.hasQuantum)
  }

  /** `a` and `b` agree on all three sort keys. */
  predicate SameKey(a: Scored, b: Scored) {
    a.similarity == b.similarity && a.course.rating == b.course.rating
    && a.course.hasQuantum == b.course.hasQuantum
  }

  /** The order of the result of a stable sort: by key, then by catalog position. */
  predicate Precedes(a: Scored, b: Scored) {
    Outranks(a, b) || (SameKey(a, b) && a.row < b.row)
  }

  /** Exactly one of: `a` outranks `b`, `b` outranks `a`, they share a key. */
  lemma KeyTrichotomy(a: Scored, b: Scored)
    ensures Outranks(a, b) || Outranks(b, a) || SameKey(a, b)
    ensures !(Outranks(a, b) && Outranks(b, a))
    ensures SameKey(a, b) ==> !Outranks(a, b) && !Outranks(b, a)
  {
  }

  lemma PrecedesAsymmetric()
    ensures forall a, b :: Precedes(a, b) ==> !Precedes(b, a)
  {
  }

  lemma PrecedesTransitive(a: Scored, b: Scored, c: Scored)
    requires Precedes(a, b) && Precedes(b, c)
    ensures Precedes(a, c)
  {
  }

  /** Insert `x` before the first element that does not outrank it. */
  function Insert(x: Scored, s: seq<Scored>): (r: seq<Scored>)
    ensures multiset(r) == multiset(s) + multiset{x}
  {
    if |s| == 0 then [x]
    else
      assert s == [s[0]] + s[1..];
      if Outranks(s[0], x) then [s[0]] + Insert(x, s[1..])
    else [x] + s
  }

  /** Insertion sort from the back: each row is inserted ahead of every row that
      follows it in the input and has the same key, which makes the sort stable. */
  function SortRows(s: seq<Scored>): (r: seq<Scored>)
    ensures multiset(r) == multiset(s)
  {
    if |s| == 0 then []
    else
      assert s == [s[0]] + s[1..];
      Insert(s[0], SortRows(s[1..]))
  }

  lemma {:induction false} InsertSorted(x: Scored, s: seq<Scored>)
    requires StrictlySorted(s, Precedes)
    requires forall y :: y in s ==> x.row < y.row
    ensures StrictlySorted(Insert(x, s), Precedes)
  {
    if |s| > 0 {
      if Outranks(s[0], x) {
        var tail := s[1..];
        assert forall y :: y in tail ==> y in s;
        InsertSorted(x, tail);
        InsertBehind(x, s);
      } else {
        assert s[0] in s;
        InsertAhead(x, s);
      }
    }
  }

  /** `x` goes first when the first row does not outrank it. */
  lemma InsertAhead(x: Scored, s: seq<Scored>)
    requires |s| > 0 && StrictlySorted(s, Precedes)
    requires !Outranks(s[0], x) && x.row < s[0].row
    ensures StrictlySorted([x] + s, Precedes)
  {
    KeyTrichotomy(x, s[0]);
    assert Precedes(x, s[0]);
    var r := [x] + s;
    forall i, j | 0 <= i < j < |r|
      ensures Precedes(r[i], r[j])
    {
      if i == 0 && j > 1 {
        PrecedesTransitive(x, s[0], s[j - 1]);
      }
    }
  }

  /** The first row stays first when it outranks `x`. */
  lemma InsertBehind(x: Scored, s: seq<Scored>)
    requires |s| > 0 && StrictlySorted(s, Precedes)
    requires Outranks(s[0], x)
    requires StrictlySorted(Insert(x, s[1..]), Precedes)
    ensures StrictlySorted([s[0]] + Insert(x, s[1..]), Precedes)
  {
    var tail := s[1..];
    var rest := Insert(x, tail);
    assert forall y :: y in rest ==> Precedes(s[0], y) by {
      forall y | y in rest
        ensures Precedes(s[0], y)
      {
        assert y in multiset(rest);
        if y != x {
          assert y in multiset(tail);
          var j :| 0 <= j < |tail| && tail[j] == y;
          assert s[j + 1] == y;
        }
      }
    }
    ConsSorted(s[0], rest, Precedes);
  }

  /** Sorting rows given in catalog order yields rows ordered by key and, within
      a key, by catalog position. */
  lemma {:induction false} SortRowsSorted(s: seq<Scored>)
    requires InCatalogOrder(s)
    ensures StrictlySorted(SortRows(s), Precedes)
  {
    if |s| > 0 {
      var tail := s[1..];
      assert InCatalogOrder(tail);
      SortRowsSorted(tail);
      forall y | y in SortRows(tail)
        ensures s[0].row < y.row
      {
        assert y in multiset(SortRows(tail));
        var j :| 0 <= j < |tail| && tail[j] == y;
        assert RowBefore(s[0], s[j + 1]);
      }
      InsertSorted(s[0], SortRows(tail));
    }
  }

  /** The stable sort is the only arrangement of the rows that is ordered by key
      and keeps catalog order among equal keys. */
  lemma StableSortUnique(s: seq<Scored>, t: seq<Scored>)
    requires InCatalogOrder(s)
    requires StrictlySorted(t, Precedes)
    requires forall x :: x in t <==> x in s
    ensures t == SortRows(s)
  {
    SortRowsSorted(s);
    PrecedesAsymmetric();
    forall x
      ensures x in SortRows(s) <==> x in s
    {
      assert x in SortRows(s) <==> x in multiset(SortRows(s));
    }
    SortedUnique(t, SortRows(s), Precedes);
  }

  /** What the order means for neighbours and for equal keys. */
  lemma SortedMeaning(r: seq<Scored>)
    requires StrictlySorted(r, Precedes)
    ensures forall i, j :: 0 <= i < j < |r| ==> !Outranks(r[j], r[i])
    ensures forall i, j :: 0 <= i < j < |r| && SameKey(r[i], r[j]) ==> r[i].row < r[j].row
  {
    forall i, j | 0 <= i < j < |r|
      ensures !Outranks(r[j], r[i])
    {
      KeyTrichotomy(r[i], r[j]);
    }
  }

  /** A missing rating counts as 0 for the minimum-rating filter but sorts after
      an actual rating of 0. */
  lemma MissingRating(f: Filters, c: Course, row: nat, sim: real)
    ensures RatingOk(f, c.(rating := None)) == RatingOk(f, c.(rating := Some(0.0)))
    ensures Outranks(Scored(row, c.(rating := Some(0.0)), sim), Scored(row, c.(rating := None), sim))
  {
  }
}
