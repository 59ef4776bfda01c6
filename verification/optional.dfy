/** A value that may be absent: a course rating read from the catalog can be missing. */
module Optional {

  datatype Option<+T> = None | Some(value: T) {

    /** pandas' `fillna(fill)` on one cell: the value when present, `fill` when
        it is missing. */
    function FillNa(fill: T): (r: T)
      ensures Some? ==> r == value
      ensures None? ==> r == fill
    {
      if Some? then value else fill
    }
  }
}
