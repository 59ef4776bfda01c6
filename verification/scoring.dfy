/**
 Scored rows and the filters of the ranking engine (`rank_courses`): one
 similarity score is attached to each course, and the rows are then narrowed
 by difficulty, minimum rating and topic.
 */
module Scoring {
  import opened Catalog
  import opened Sequences

  /** A course together with its row position in the catalog and its similarity
      to the query. */
  datatype Scored = Scored(row: nat, course: Course, similarity: real)

  /** The catalog order of rows. */
  predicate RowBefore(a: Scored, b: Scored) {
    a.row < b.row
  }

  ghost predicate InCatalogOrder(rows: seq<Scored>) {
    StrictlySorted(rows, RowBefore)
  }

  /** The score row `i` receives: its own score, or 0.0 when the score array is
      too short. */
  function ScoreOf(scores: seq<real>, i: nat): real {
    if i < |scores| then scores[i] else 0.0
  }

  function Zeros(n: nat): (z: seq<real>)
    ensures |z| == n
    ensures forall i :: 0 <= i < n ==> z[i] == 0.0
  {
    seq(n, _ => 0.0)
  }

  /** The `similarity` column assignment: course `i` paired with `sims[i]`. */
  function Pair(courses: seq<Course>, sims: seq<real>): (r: seq<Scored>)
    requires |sims| == |courses|
    ensures |r| == |courses|
    ensures forall i :: 0 <= i < |r| ==> r[i] == Scored(i, courses[i], sims[i])
  {
    seq(|courses|, i requires 0 <= i < |courses| => Scored(i, courses[i], sims[i]))
  }

  /** Attach one score to every course: extra scores are ignored and missing
      scores are padded with 0.0. */
  function AttachScores(courses: seq<Course>, scores: seq<real>): (r: seq<Scored>)
    ensures |r| == |courses|
    ensures forall i :: 0 <= i < |r| ==> r[i] == Scored(i, courses[i], ScoreOf(scores, i))
    ensures InCatalogOrder(r)
  {
    if |scores| == |courses| then Pair(courses, scores)
    else if |scores| > |courses| then Pair(courses, scores[..|courses|])
    else Pair(courses, (scores + Zeros(|courses| - |scores|))[..|courses|])
  }

  /** The scored rows are exactly the catalog's courses, each at its own position
      with its own score. */
  lemma AttachedMembers(courses: seq<Course>, scores: seq<real>)
    ensures forall x :: x in AttachScores(courses, scores) <==>
      x.row < |courses| && x == Scored(x.row, courses[x.row], ScoreOf(scores, x.row))
  {
    var r := AttachScores(courses, scores);
    forall x: Scored | x.row < |courses| && x == Scored(x.row, courses[x.row], ScoreOf(scores, x.row))
      ensures x in r
    {
      assert r[x.row] == x;
    }
  }

  /** The user's filter choices. An empty list means no constraint, and so does a
      minimum rating of exactly 0. */
  datatype Filters = Filters(difficulties: seq<string>, minRating: real, topics: seq<string>)

  predicate DifficultyOk(f: Filters, c: Course) {
    |f.difficulties| == 0 || c.difficulty in f.difficulties
  }

  /** A missing rating counts as 0 here. */
  predicate RatingOk(f: Filters, c: Course) {
    f.minRating == 0.0 || c.rating.FillNa(0.0) >= f.minRating
  }

  predicate TopicOk(f: Filters, c: Course) {
    |f.topics| == 0 || c.topic in f.topics
  }

  /** All active filters accept the course. */
  predicate Passes(f: Filters, c: Course) {
    DifficultyOk(f, c) && RatingOk(f, c) && TopicOk(f, c)
  }

  /** Boolean-mask selection: the rows satisfying `p`, in their original order. */
  function Keep(rows: seq<Scored>, p: Scored -> bool): (r: seq<Scored>)
    ensures |r| <= |rows|
    ensures forall x :: x in r <==> x in rows && p(x)
    ensures InCatalogOrder(rows) ==> InCatalogOrder(r)
  {
    if |rows| == 0 then []
    else
      assert forall x :: x in rows[1..] ==> x in rows;
      assert InCatalogOrder(rows) ==> forall x :: x in rows[1..] ==> RowBefore(rows[0], x);
      if p(rows[0]) then [rows[0]] + Keep(rows[1..], p)
      else Keep(rows[1..], p)
  }

  /** The three filters, applied one after another as the source does. */
  function ApplyFilters(rows: seq<Scored>, f: Filters): (r: seq<Scored>)
    ensures forall x :: x in r <==> x in rows && Passes(f, x.course)
    ensures InCatalogOrder(rows) ==> InCatalogOrder(r)
  {
    var byDifficulty :=
      if |f.difficulties| > 0 then Keep(rows, (x: Scored) => x.course.difficulty in f.difficulties) else rows;
    var byRating :=
      if f.minRating != 0.0 then Keep(byDifficulty, (x: Scored) => x.course.rating.FillNa(0.0) >= f.minRating)
      else byDifficulty;
    if |f.topics| > 0 then Keep(byRating, (x: Scored) => x.course.topic in f.topics) else byRating
  }

  /** Number of courses that pass the filters. */
  function CountPassing(courses: seq<Course>, f: Filters): (n: nat)
    ensures n <= |courses|
  {
    if |courses| == 0 then 0
    else (if Passes(f, courses[0]) then 1 else 0) + CountPassing(courses[1..], f)
  }

  /** Selecting with a course predicate keeps as many rows as there are courses
      satisfying it. */
  lemma {:induction false} KeepCount(rows: seq<Scored>, courses: seq<Course>, f: Filters, p: Scored -> bool)
    requires |rows| == |courses|
    requires forall i :: 0 <= i < |rows| ==> rows[i].course == courses[i]
    requires forall x :: p(x) == Passes(f, x.course)
    ensures |Keep(rows, p)| == CountPassing(courses, f)
  {
    if |rows| > 0 {
      assert forall i :: 0 <= i < |rows[1..]| ==> rows[1..][i].course == courses[1..][i] by {
        assert forall i :: 0 <= i < |rows[1..]| ==> rows[1..][i] == rows[i + 1];
      }
      KeepCount(rows[1..], courses[1..], f, p);
    }
  }

  /** The filtered rows are as many as the courses that pass the filters:
      filters never look at scores. */
  lemma FilteredCount(courses: seq<Course>, scores: seq<real>, f: Filters)
    ensures |ApplyFilters(AttachScores(courses, scores), f)| == CountPassing(courses, f)
  {
    var rows := AttachScores(courses, scores);
    var p := (x: Scored) => Passes(f, x.course);
    var once := Keep(rows, p);
    RowBeforeAsymmetric();
    SortedUnique(ApplyFilters(rows, f), once, RowBefore);
    KeepCount(rows, courses, f, p);
  }

  lemma RowBeforeAsymmetric()
    ensures forall x, y :: RowBefore(x, y) ==> !RowBefore(y, x)
  {
  }
}
