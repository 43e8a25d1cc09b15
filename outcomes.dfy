/** Values for the ways the grade engine can stop without a result. */
module Outcomes {

  datatype Option<+T> = None | Some(value: T)

  /** The exceptions the aggregation code raises, one constructor per cause. */
  datatype Failure =
      /** `cols, = set(...)` in get_columns finds no student at all. */
    | NoStudents
      /** `cols, = set(...)` finds two different sorted key tuples. */
    | InconsistentColumns
      /** total evaluates `col[3]` on a column named exactly "lab" (IndexError). */
    | BareLabColumn
      /** total reads `data.<name>` for a column that is absent (AttributeError). */
    | MissingColumn(name: string)
      /** No "disc*" and no "lab*" column: participation is the integer 0 and has no `clip`. */
    | NoParticipationColumns
      /** sort_values refuses a column label that is not unique. */
    | DuplicateColumnLabel

  datatype Result<+T> = Ok(value: T) | Err(error: Failure)
}
