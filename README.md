# ldsagrader core, modelled in Dafny

ldsagrader grades student notebooks of the LDSA curriculum. This model covers the two
pieces of logic the repository implements itself. Everything else it does is command-line,
HTTP and notebook I/O.

* `ldsagrader/utils.py`:
  * `calculate_checksums` builds a map from each graded cell's `grade_id` to that cell's checksum.
  * `is_valid` checks a notebook against such a baseline map.
  * `grade` sums the `(score, max_score)` pairs of the graded cells.
* `ldsagrader/preprocessors/forbidhiddentests.py`: the `ForbidHiddenTests` preprocessor.
  It splits a cell's source on `"\n"`. It rejects the cell when any line contains the begin
  or the end hidden-test delimiter. Otherwise it returns the cell and the resources unchanged.

Files:

* `wrappers.dfy` (`Wrappers`): the `Option`, `Result` and `Outcome` datatypes. A raised
  exception is modelled as an `Err`/`Fail` value.
* `nbgrader.dfy` (`Nbgrader`): the nbgrader helpers the core calls, gathered in the
  datatype `Api<C>`. It has four fields, each a total function over an abstract cell type `C`:
  * `isGrade`, for `utils.is_grade`;
  * `gradeId`, for the lookup `cell.metadata.nbgrader['grade_id']`. It yields `None` when the key is missing;
  * `computeChecksum`, for `utils.compute_checksum`;
  * `determineGrade`, for `utils.determine_grade`. Its score is `None` for a cell that has not been graded yet.

  Every law below holds for every `Api`.
* `utils.dfy` (`Utils`): the three operations of `utils.py`.
  * Each is a `method` with the source's `for` loop and its early exits.
  * Each method is proved equal to a recursive specification function: `ChecksumsOf`, `IsValidOf` and `GradeSum`.
  * Lemmas state the laws of those functions.
* `forbidhiddentests.dfy` (`ForbidHiddenTests`): the preprocessor as pure functions.
  * `Split` and `Join` model Python's `str.split("\n")` and `"\n".join`.
  * `Contains` models Python's `in` on strings.
  * `DetectHiddenTestRegion` and `PreprocessCell` model the two methods.
  * The delimiters are the two constants `DEFAULT_BEGIN_TEST_DELIMETER` and `DEFAULT_END_TEST_DELIMETER`, gathered in a `Config` value.

Errors:

* `Utils.Error.MissingGradeId`: a graded cell has no `grade_id`. Python raises `KeyError`, at `utils.py:8` and `utils.py:30`.
* `Utils.Error.UnknownGradeId(id)`: "Unknow grade_id found".
* `Utils.Error.ChecksumChanged(id)`: "Checksum for grade cell ... changed".
* `Utils.Error.ScoreIsNone`: `total_score += None` raises `TypeError`.
* `ForbidHiddenTests.Error.EncounteredHiddenTestRegion`: the preprocessor's `RuntimeError`.

Notes on the code's behaviour:

* A duplicate `grade_id` is not an error. The later cell's checksum silently overwrites the earlier one.
* Baseline keys that match no cell are ignored.
* A checksum mismatch is raised as an exception. It is not a "mismatch" return value.
* `is_valid` never returns `False`.

## Model

| member | source | states |
|---|---|---|
| Utils.CalculateChecksums | ldsagrader/utils.py:4-12 | the for-loop that fills the dictionary computes exactly `ChecksumsOf(cells)`, including the early `KeyError` exit for a graded cell without `grade_id` |
| Utils.ChecksumsKeys | ldsagrader/utils.py:4-12 | the key set of the resulting map is exactly the set of `grade_id`s of graded cells |
| Utils.ChecksumsLastWins | ldsagrader/utils.py:6-10 | when several graded cells share an id, the map holds the checksum of the last of them in document order |
| Utils.ChecksumsFails | ldsagrader/utils.py:7-8 | the computation fails iff some graded cell lacks a `grade_id`, and then the error is `MissingGradeId` |
| Utils.IsValid | ldsagrader/utils.py:27-39 | the loop with its two raises computes exactly `IsValidOf(cells, checksums)` |
| Utils.CheckCell | ldsagrader/utils.py:29-38 | one graded cell passes iff its id is a baseline key whose stored checksum equals the cell's checksum; a missing id is the only `MissingGradeId` case; a cell that is not graded always passes |
| Utils.IsValidNeverFalse | ldsagrader/utils.py:27-39 | `is_valid` never yields `False`: it returns `True` or raises |
| Utils.IsValidIff | ldsagrader/utils.py:27-39 | the result is `True` iff every graded cell has an id that is in the baseline with an equal checksum |
| Utils.IsValidFirstFailure | ldsagrader/utils.py:28-38 | if every cell before position `i` passes and graded cell `i` fails, the result is the error of cell `i`: missing id, unknown id, or changed checksum, each with that cell's id |
| Utils.IsValidFailureLocated | ldsagrader/utils.py:28-38 | any error returned is the error of some cell all of whose predecessors passed, so the first failing cell decides the error |
| Utils.IsValidSkipsMatching | ldsagrader/utils.py:28-38 | a prefix of passing cells does not change the outcome |
| Utils.IsValidIgnoresOtherKeys | ldsagrader/utils.py:31-36 | two baselines that agree on the ids of the notebook's graded cells give the same outcome, so extra baseline keys are ignored |
| Utils.RoundTripIff | ldsagrader/utils.py:4-39 | validating a notebook against its own checksums yields `True` iff all graded cells that share an id have equal checksums |
| Utils.RoundTrip | ldsagrader/utils.py:4-39 | with pairwise distinct graded ids, a successful checksum computation always validates against itself |
| Utils.Grade | ldsagrader/utils.py:15-24 | the loop with its two running accumulators computes exactly `GradeSum(cells)`, the componentwise sum of `determine_grade` over graded cells, or raises when a score is `None` |
| Utils.GradeAppend | ldsagrader/utils.py:16-24 | over exact reals, grading `a + b` is the componentwise sum of grading `a` and grading `b`; the first error wins |
| Utils.CombineAssociative | ldsagrader/utils.py:21-22 | combining partial totals, errors included, is associative |
| Utils.GradeNoGradeCells | ldsagrader/utils.py:15-24 | a notebook without graded cells grades to `(0, 0)` |
| Utils.GradeFails | ldsagrader/utils.py:19-21 | grading fails iff some graded cell has no score, and the only error is `ScoreIsNone` |
| Utils.GradeCommutes | ldsagrader/utils.py:16-24 | over exact reals, the order of two parts of a notebook does not change the totals or the error |
| Utils.OnlyGradeCellsMatter | ldsagrader/utils.py:4-39 | dropping every cell that is not graded changes none of the checksum map, the validation outcome and the totals |
| Utils.UngradedEdit | ldsagrader/utils.py:4-39 | two notebooks that differ only in cells that are not graded have the same checksum map, the same validation outcome and the same totals |
| Utils.SameGradeCellsFilter | ldsagrader/utils.py:6-7 | notebooks differing only in cells that are not graded have the same graded cells |
| ForbidHiddenTests.Split | ldsagrader/preprocessors/forbidhiddentests.py:19 | splitting on `"\n"` yields at least one line, no line contains a newline, and joining with `"\n"` gives back the source |
| ForbidHiddenTests.SplitJoin | ldsagrader/preprocessors/forbidhiddentests.py:19 | splitting a join of newline-free lines gives those lines back, so `Split` is the unique such decomposition |
| ForbidHiddenTests.Contains | ldsagrader/preprocessors/forbidhiddentests.py:23 | `needle in line` holds iff the needle occurs at some position of the line: an exact, case-sensitive substring test |
| ForbidHiddenTests.ScanLines | ldsagrader/preprocessors/forbidhiddentests.py:21-24 | scanning the lines raises iff some line contains one of the two delimiters |
| ForbidHiddenTests.DetectHiddenTestRegion | ldsagrader/preprocessors/forbidhiddentests.py:17-24 | the cell is rejected iff some element of `source.split("\n")` contains the begin or the end delimiter |
| ForbidHiddenTests.PreprocessCell | ldsagrader/preprocessors/forbidhiddentests.py:26-29 | it succeeds iff detection passes, and then returns the very same cell and resources; otherwise it fails with the hidden-test error |
| ForbidHiddenTests.DetectIffSourceContains | ldsagrader/preprocessors/forbidhiddentests.py:17-24 | for newline-free delimiters, the cell is rejected iff the whole source contains one of them |
| ForbidHiddenTests.DefaultDetectIff | ldsagrader/preprocessors/forbidhiddentests.py:8-24 | with the default delimiters, the cell is rejected iff its source contains `"BEGIN HIDDEN TESTS"` or `"END HIDDEN TESTS"` |
| ForbidHiddenTests.NoOccurrencePasses | ldsagrader/preprocessors/forbidhiddentests.py:21-24 | a source with no occurrence of either delimiter is never rejected, whatever the delimiters |
| ForbidHiddenTests.EmptySourcePasses | ldsagrader/preprocessors/forbidhiddentests.py:8-24 | the empty source passes with the default delimiters |
| ForbidHiddenTests.MarkerAnywhereRejected | ldsagrader/preprocessors/forbidhiddentests.py:23 | a default delimiter anywhere in the source is rejected, with any text before it and after it on the same line or on other lines |
| ForbidHiddenTests.WithoutCapitalsPasses | ldsagrader/preprocessors/forbidhiddentests.py:8-23 | a source without the capitals `B` and `E` passes with the default delimiters, so lower-case `begin hidden tests` is not a match |
| ForbidHiddenTests.MultilineDelimitersNeverMatch | ldsagrader/preprocessors/forbidhiddentests.py:19-24 | delimiters that both contain a newline can never match, because each line is newline-free |

## Left out

- `ldsagrader/ldsagrader.py` as a whole is not part of this model. It holds the click commands, the HTTP calls to the grading and checksum services, `nbformat` reads and writes, `os.chdir`, `sys.exit` and configuration from environment variables. This is all I/O and orchestration.
- The acceptance checks in `ldsagrader/ldsagrader.py`, such as the maximum score rounding to 20 and a total below the maximum failing. They rely on float `round` and process exit codes.
- `utils.execute`, `utils.clear`, `utils.find_exercise_nb`, `utils.find_path` and `utils.calculate_checksum` are not part of this model. The command-line module calls them, but this version of `utils.py` defines none of them. Notebook execution needs an external kernel.
- nbgrader's internals: `is_grade`, `compute_checksum` (an MD5 digest of the cell's content) and `determine_grade`. They stay as abstract functions in `Nbgrader.Api`. No hashing is reimplemented. The `Api` fields are total functions, so an exception raised inside nbgrader's `compute_checksum` or `determine_grade` is not modelled and cannot reach `calculate_checksums`, `is_valid` or `grade`.
- `nb.cells` is taken as a sequence of abstract cells. The introspection of `cell.metadata.nbgrader` is reduced to `Api.gradeId`.
- The traitlets configuration machinery and the `NbGraderPreprocessor` base class. The delimiters are plain string values in `Config`.
- `preprocess_cell`'s `cell_index` argument is accepted and ignored, as in the source.
- Exception message text is not modelled. Errors keep only their kind and the offending `grade_id`.
- Utils.Grade: scores are exact `real` numbers, so IEEE float rounding of the sums is not modelled. The Python start value `0` (an `int`) is modelled as `0.0`.
- Utils.GradeAppend: holds for exact sums only. Python's float totals depend on the order of addition and can differ in the last bit.
- Utils.GradeCommutes: holds for exact sums only. Python's float totals can differ in the last bit with order: 0.1 + 0.2 + 0.3 gives 0.6000000000000001, the reverse order gives 0.6.
- Utils.CalculateChecksums: nbgrader's checksum is taken as a plain string. Whether two checksums are equal is all that matters to the core.
