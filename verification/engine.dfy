/**
 The ranking engine end to end (`rank_courses`, fed by `preprocess_query` and
 the aligned artifacts): empty query or no surviving row gives an empty
 result; otherwise the filtered rows are sorted and the first `top_k` kept.
 */
module Engine {
  import opened Catalog
  import opened Sequences
  import opened Scoring
  import opened Ordering
  import opened Query

  /** pandas' `head(k)`: the first `k` rows, or all but the last `-k` rows when `k`
      is negative. */
  function Head<T>(s: seq<T>, k: int): (r: seq<T>)
    ensures |r| <= |s| && r == s[..|r|]
    ensures |r| == if k >= 0 then Min(k, |s|) else Max(|s| + k, 0)
  {
    if k >= 0 then s[..Min(k, |s|)] else s[..Max(|s| + k, 0)]
  }

  /** A scored row the engine may return: a catalog course at its own position,
      with its own score, accepted by every active filter. */
  predicate Eligible(courses: seq<Course>, scores: seq<real>, f: Filters, x: Scored) {
    && x.row < |courses|
    && x.course == courses[x.row]
    && x.similarity == ScoreOf(scores, x.row)
    && Passes(f, x.course)
  }

  /** All eligible rows in ranking order. */
  function Ranked(courses: seq<Course>, scores: seq<real>, f: Filters): (r: seq<Scored>)
    ensures StrictlySorted(r, Precedes)
    ensures forall x :: x in r <==> Eligible(courses, scores, f, x)
    ensures |r| == CountPassing(courses, f)
  {
    var rows := AttachScores(courses, scores);
    var filtered := ApplyFilters(rows, f);
    AttachedMembers(courses, scores);
    SortRowsSorted(filtered);
    FilteredCount(courses, scores, f);
    assert forall x :: x in SortRows(filtered) <==> x in multiset(SortRows(filtered));
    assert |multiset(SortRows(filtered))| == |multiset(filtered)|;
    SortRows(filtered)
  }

  /** `rank_courses` with the similarity scores supplied: the best `topK` eligible
      rows in ranking order. */
  function Rank(query: string, courses: seq<Course>, scores: seq<real>, topK: int, f: Filters): (r: seq<Scored>)
    ensures query == "" ==> r == []
    ensures query != "" && topK >= 0 ==> |r| == Min(topK, CountPassing(courses, f))
    ensures query != "" && topK < 0 ==> |r| == Max(CountPassing(courses, f) + topK, 0)
    ensures forall x :: x in r ==> Eligible(courses, scores, f, x)
    ensures forall i, j :: 0 <= i < j < |r| ==> !Outranks(r[j], r[i])
    ensures forall i, j :: 0 <= i < j < |r| && SameKey(r[i], r[j]) ==> r[i].row < r[j].row
    ensures forall x, y :: Eligible(courses, scores, f, x) && x !in r && y in r ==> Precedes(y, x)
  {
    if query == "" then []
    else
      var filtered := ApplyFilters(AttachScores(courses, scores), f);
      if |filtered| == 0 then
        FilteredCount(courses, scores, f);
        []
      else
        var ranked := Ranked(courses, scores, f);
        var r := Head(ranked, topK);
        PrefixBeforeRest(ranked, |r|, Precedes);
        assert forall x :: x in r ==> x in ranked;
        assert StrictlySorted(r, Precedes);
        SortedMeaning(r);
        r
  }

  /** The similarity of the normalised query to every matrix row, in row order. */
  function Similarities<M>(q: string, rows: seq<M>, similarity: (string, M) -> real): (r: seq<real>)
    ensures |r| == |rows|
    ensures forall i :: 0 <= i < |rows| ==> r[i] == similarity(q, rows[i])
  {
    seq(|rows|, i requires 0 <= i < |rows| => similarity(q, rows[i]))
  }

  /** The whole request: normalise the query, align the artifacts, score every
      aligned row with `similarity`, then rank. The result is `Rank`'s over the
      aligned catalog: its size is the `head(top_k)` of the passing aligned
      courses, it is in ranking order, and no eligible row left out ranks above
      a returned one. */
  function Recommend<M>(raw: string, courses: seq<Course>, matrix: seq<M>,
                        similarity: (string, M) -> real, topK: int, f: Filters): (r: seq<Scored>)
    ensures !HasLetter(raw) ==> r == []
    ensures forall x :: x in r ==>
      && x.row < Min(|courses|, |matrix|)
      && x.course == courses[x.row]
      && x.similarity == similarity(Normalize(raw), matrix[x.row])
      && Passes(f, x.course)
    ensures var n := CountPassing(Align(courses, matrix).courses, f);
            HasLetter(raw) ==> |r| == if topK >= 0 then Min(topK, n) else Max(n + topK, 0)
    ensures forall i, j :: 0 <= i < j < |r| ==> !Outranks(r[j], r[i])
    ensures forall i, j :: 0 <= i < j < |r| && SameKey(r[i], r[j]) ==> r[i].row < r[j].row
    ensures var a := Align(courses, matrix);
            var scores := Similarities(Normalize(raw), a.rows, similarity);
            forall x, y :: Eligible(a.courses, scores, f, x) && x !in r && y in r ==> Precedes(y, x)
  {
    var a := Align(courses, matrix);
    var q := Normalize(raw);
    Rank(q, a.courses, Similarities(q, a.rows, similarity), topK, f)
  }

  /** Two courses, the first scoring higher, no filters, top 2: both come back,
      the better-scoring one first. */
  lemma TwoCourseScenario(a: Course, b: Course)
    ensures var none := Filters([], 0.0, []);
            Rank("quantum computing", [a, b], [0.8, 0.0], 2, none)
              == [Scored(0, a, 0.8), Scored(1, b, 0.0)]
  {
    var none := Filters([], 0.0, []);
    var courses := [a, b];
    var scores := [0.8, 0.0];
    var r := Rank("quantum computing", courses, scores, 2, none);
    var x := Scored(0, a, 0.8);
    var y := Scored(1, b, 0.0);
    assert CountPassing(courses, none) == 2 by {
      assert courses[1..][1..] == [];
    }
    assert Eligible(courses, scores, none, x) && Eligible(courses, scores, none, y);
    assert r[0] == x && r[1] == y by {
      forall z | z in r
        ensures z == x || z == y
      {
        assert Eligible(courses, scores, none, z);
      }
      assert r[0] in r && r[1] in r;
    }
  }
}
