/**
 The course table and its alignment with the similarity matrix at start-up
 (`load_artifacts`): when the two disagree in row count, both are cut to the
 common prefix and a warning is raised.
 */
module Catalog {
  import opened Optional

  /** One row of the course table. */
  datatype Course = Course(
    name: string,
    difficulty: string,
    topic: string,          // the `topic_cluster` column
    rating: Option<real>,   // None when the rating is missing (NaN)
    hasQuantum: bool,
    skills: seq<string>)

  function Min(a: int, b: int): int {
    if a <= b then a else b
  }

  function Max(a: int, b: int): int {
    if a <= b then b else a
  }

  /** The course table and the matrix rows after alignment; `mismatch` is set
      when the warning about differing row counts was raised. */
  datatype Aligned<M> = Aligned(courses: seq<Course>, rows: seq<M>, mismatch: bool)

  /** Cut the course table and the matrix (rows of type `M`) to their common length. */
  function Align<M>(courses: seq<Course>, rows: seq<M>): (a: Aligned<M>)
    ensures |a.courses| == |a.rows| == Min(|courses|, |rows|)
    ensures a.courses == courses[..|a.courses|]
    ensures a.rows == rows[..|a.rows|]
    ensures a.mismatch <==> |courses| != |rows|
  {
    if |rows| != |courses| then
      if |rows| > |courses| then Aligned(courses, rows[..|courses|], true)
      else Aligned(courses[..|rows|], rows, true)
    else Aligned(courses, rows, false)
  }

  /** Aligning an aligned pair changes nothing and raises no warning. */
  lemma AlignStable<M>(courses: seq<Course>, rows: seq<M>)
    ensures var a := Align(courses, rows);
            Align(a.courses, a.rows) == Aligned(a.courses, a.rows, false)
  {
  }
}
