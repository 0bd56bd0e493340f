/**
 * The interface ldsagrader uses from the nbgrader library.
 *
 * The library itself is foreign: whether a cell is a grade cell, the MD5
 * checksum it computes and the score it assigns are not reimplemented.
 * They are the fields of an `Api` value, so every law proved about the
 * grader holds for every possible behaviour of the library.
 */
module Nbgrader {
  import opened Wrappers

  type GradeId = string

  /** A checksum as nbgrader's `compute_checksum` returns it (a hex digest string). */
  type Digest = string

  /**
   * What nbgrader's `determine_grade` returns for a grade cell: the score
   * (`None` when the cell has no automatic score, e.g. a manually graded
   * answer) and the maximum score (the cell's declared points).
   */
  datatype CellGrade = CellGrade(score: Option<real>, maxScore: real)

  /**
   * The library, over an abstract cell type `C`:
   *  - `isGrade`: nbgrader's `utils.is_grade(cell)`;
   *  - `gradeId`: the lookup `cell.metadata.nbgrader['grade_id']`, `None`
   *    when the key is absent (Python then raises `KeyError`);
   *  - `computeChecksum`: nbgrader's `utils.compute_checksum(cell)`;
   *  - `determineGrade`: nbgrader's `utils.determine_grade(cell)`.
   */
  datatype Api<!C> = Api(
    isGrade: C -> bool,
    gradeId: C -> Option<GradeId>,
    computeChecksum: C -> Digest,
    determineGrade: C -> CellGrade)

  /** Cell `c` is a grade cell whose nbgrader metadata carries grade id `id`. */
  predicate HasId<C>(api: Api<C>, c: C, id: GradeId)
  {
    api.isGrade(c) && api.gradeId(c) == Some(id)
  }
}
