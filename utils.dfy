/**
 * The checksum map, the checksum validator and the score sum of
 * `ldsagrader/utils.py`.
 *
 * A notebook is the sequence of its cells, in document order. Each of the
 * three Python functions is a loop over that sequence; each is modelled
 * by a method with the same loop, proved equal to a recursive
 * function, and the laws of ldsagrader are lemmas about
 * those functions.
 */
module Utils {
  import opened Wrappers
  import opened Nbgrader

  /** The exceptions the three functions can raise. */
  datatype Error =
    | MissingGradeId                    // KeyError: a grade cell's nbgrader metadata has no 'grade_id'
    | UnknownGradeId(gradeId: GradeId)  // RuntimeError: the grade id is not a key of the baseline
    | ChecksumChanged(gradeId: GradeId) // RuntimeError: the cell's checksum differs from the baseline's
    | ScoreIsNone                       // TypeError: `total_score += None` for a cell with no score

  /** A baseline: grade id to the checksum of that grade cell. */
  type Checksums = map<GradeId, Digest>

  /** The pair `(total_score, max_total_score)` that `grade` returns. */
  datatype Totals = Totals(totalScore: real, maxTotalScore: real)

  /** A grade cell whose metadata has no grade id. */
  predicate LacksId<C>(api: Api<C>, c: C)
  {
    api.isGrade(c) && api.gradeId(c).None?
  }

  /** The grade cells of `cells`, in order: what remains when every other cell is dropped. */
  function GradeCells<C>(api: Api<C>, cells: seq<C>): (r: seq<C>)
    ensures |r| <= |cells|
    ensures forall j :: 0 <= j < |r| ==> api.isGrade(r[j])
  {
    if cells == [] then []
    else if api.isGrade(cells[0]) then [cells[0]] + GradeCells(api, cells[1..])
    else GradeCells(api, cells[1..])
  }

  /** `a` and `b` agree except on cells that are not grade cells in either. */
  ghost predicate SameGradeCells<C>(api: Api<C>, a: seq<C>, b: seq<C>)
  {
    |a| == |b| &&
    forall j :: 0 <= j < |a| ==> a[j] == b[j] || (!api.isGrade(a[j]) && !api.isGrade(b[j]))
  }

  // ---------------------------------------------------------------------
  // calculate_checksums
  // ---------------------------------------------------------------------

  /**
   * The loop of `calculate_checksums` run over `cells` from the dictionary
   * `acc`: every grade cell stores its checksum under its grade id,
   * overwriting what was there; a grade cell without a grade id raises.
   */
  function ChecksumsFrom<C>(api: Api<C>, acc: Checksums, cells: seq<C>): (r: Result<Checksums, Error>)
    ensures r.Err? ==> r.error == MissingGradeId
    decreases |cells|
  {
    if cells == [] then Ok(acc)
    else if !api.isGrade(cells[0]) then ChecksumsFrom(api, acc, cells[1..])
    else match api.gradeId(cells[0])
      case None => Err(MissingGradeId)
      case Some(id) => ChecksumsFrom(api, acc[id := api.computeChecksum(cells[0])], cells[1..])
  }

  /** What `calculate_checksums(nb)` returns or raises. */
  function ChecksumsOf<C>(api: Api<C>, cells: seq<C>): Result<Checksums, Error>
  {
    ChecksumsFrom(api, map[], cells)
  }

  method CalculateChecksums<C>(api: Api<C>, cells: seq<C>) returns (r: Result<Checksums, Error>)
    ensures r == ChecksumsOf(api, cells)
  {
    var checksums: Checksums := map[];
    assert cells[0..] == cells;
    for i := 0 to |cells|
      invariant ChecksumsFrom(api, checksums, cells[i..]) == ChecksumsOf(api, cells)
    {
      var cell := cells[i];
      assert cells[i..][1..] == cells[i + 1..];
      if api.isGrade(cell) {
        var gradeId := api.gradeId(cell);
        if gradeId.None? {
          return Err(MissingGradeId);
        }
        var checksum := api.computeChecksum(cell);
        checksums := checksums[gradeId.value := checksum];
      }
    }
    return Ok(checksums);
  }

  lemma {:induction false} ChecksumsFromFails<C>(api: Api<C>, acc: Checksums, cells: seq<C>)
    ensures ChecksumsFrom(api, acc, cells).Err? <==> exists j :: 0 <= j < |cells| && LacksId(api, cells[j])
    decreases |cells|
  {
    if cells != [] {
      var c := cells[0];
      var acc' := if api.isGrade(c) && api.gradeId(c).Some? then acc[api.gradeId(c).value := api.computeChecksum(c)] else acc;
      ChecksumsFromFails(api, acc', cells[1..]);
      if exists j :: 0 <= j < |cells[1..]| && LacksId(api, cells[1..][j]) {
        var j :| 0 <= j < |cells[1..]| && LacksId(api, cells[1..][j]);
        assert LacksId(api, cells[j + 1]);
      }
      if exists j :: 0 <= j < |cells| && LacksId(api, cells[j]) {
        var j :| 0 <= j < |cells| && LacksId(api, cells[j]);
        if j > 0 {
          assert LacksId(api, cells[1..][j - 1]);
        }
      }
    }
  }

  /** `calculate_checksums` raises (KeyError) exactly when some grade cell has no grade id. */
  lemma ChecksumsFails<C>(api: Api<C>, cells: seq<C>)
    ensures ChecksumsOf(api, cells).Err? <==> exists j :: 0 <= j < |cells| && LacksId(api, cells[j])
    ensures ChecksumsOf(api, cells).Err? ==> ChecksumsOf(api, cells).error == MissingGradeId
  {
    ChecksumsFromFails(api, map[], cells);
  }

  lemma {:induction false} ChecksumsFromKeys<C>(api: Api<C>, acc: Checksums, cells: seq<C>, m: Checksums)
    requires ChecksumsFrom(api, acc, cells) == Ok(m)
    ensures forall id :: id in m <==> id in acc || exists j :: 0 <= j < |cells| && HasId(api, cells[j], id)
    decreases |cells|
  {
    if cells != [] {
      var c := cells[0];
      var acc' := if api.isGrade(c) && api.gradeId(c).Some? then acc[api.gradeId(c).value := api.computeChecksum(c)] else acc;
      ChecksumsFromKeys(api, acc', cells[1..], m);
      forall id
        ensures id in m <==> id in acc || exists j :: 0 <= j < |cells| && HasId(api, cells[j], id)
      {
        if exists j :: 0 <= j < |cells[1..]| && HasId(api, cells[1..][j], id) {
          var j :| 0 <= j < |cells[1..]| && HasId(api, cells[1..][j], id);
          assert HasId(api, cells[j + 1], id);
        }
        if exists j :: 0 <= j < |cells| && HasId(api, cells[j], id) {
          var j :| 0 <= j < |cells| && HasId(api, cells[j], id);
          if j > 0 {
            assert HasId(api, cells[1..][j - 1], id);
          }
        }
      }
    }
  }

  /** The key set of `calculate_checksums(nb)` is exactly the set of grade ids of the grade cells. */
  lemma ChecksumsKeys<C>(api: Api<C>, cells: seq<C>, m: Checksums)
    requires ChecksumsOf(api, cells) == Ok(m)
    ensures forall id :: id in m <==> exists j :: 0 <= j < |cells| && HasId(api, cells[j], id)
  {
    ChecksumsFromKeys(api, map[], cells, m);
  }

  /** An id that no cell of `cells` carries keeps its entry from `acc`. */
  lemma {:induction false} ChecksumsFromKeeps<C>(api: Api<C>, acc: Checksums, cells: seq<C>, m: Checksums, id: GradeId)
    requires ChecksumsFrom(api, acc, cells) == Ok(m)
    requires id in acc
    requires forall k :: 0 <= k < |cells| ==> !HasId(api, cells[k], id)
    ensures id in m && m[id] == acc[id]
    decreases |cells|
  {
    if cells != [] {
      var c := cells[0];
      assert !HasId(api, cells[0], id);
      var acc' := if api.isGrade(c) && api.gradeId(c).Some? then acc[api.gradeId(c).value := api.computeChecksum(c)] else acc;
      forall k | 0 <= k < |cells[1..]| ensures !HasId(api, cells[1..][k], id) {
        assert cells[1..][k] == cells[k + 1];
      }
      ChecksumsFromKeeps(api, acc', cells[1..], m, id);
    }
  }

  lemma {:induction false} ChecksumsFromLastWins<C>(api: Api<C>, acc: Checksums, cells: seq<C>, m: Checksums, j: nat, id: GradeId)
    requires ChecksumsFrom(api, acc, cells) == Ok(m)
    requires j < |cells| && HasId(api, cells[j], id)
    requires forall k :: j < k < |cells| ==> !HasId(api, cells[k], id)
    ensures id in m && m[id] == api.computeChecksum(cells[j])
    decreases |cells|
  {
    var c := cells[0];
    var acc' := if api.isGrade(c) && api.gradeId(c).Some? then acc[api.gradeId(c).value := api.computeChecksum(c)] else acc;
    forall k | 0 <= k < |cells[1..]| && (j == 0 || j - 1 < k) ensures !HasId(api, cells[1..][k], id) {
      assert cells[1..][k] == cells[k + 1];
    }
    if j == 0 {
      ChecksumsFromKeeps(api, acc', cells[1..], m, id);
    } else {
      ChecksumsFromLastWins(api, acc', cells[1..], m, j - 1, id);
    }
  }

  /**
   * When several grade cells share a grade id, the map holds the checksum
   * of the last of them in document order: a later assignment overwrites.
   */
  lemma ChecksumsLastWins<C>(api: Api<C>, cells: seq<C>, m: Checksums, j: nat, id: GradeId)
    requires ChecksumsOf(api, cells) == Ok(m)
    requires j < |cells| && HasId(api, cells[j], id)
    requires forall k :: j < k < |cells| ==> !HasId(api, cells[k], id)
    ensures id in m && m[id] == api.computeChecksum(cells[j])
  {
    ChecksumsFromLastWins(api, map[], cells, m, j, id);
  }

  lemma {:induction false} ChecksumsFromGradeCells<C>(api: Api<C>, acc: Checksums, cells: seq<C>)
    ensures ChecksumsFrom(api, acc, cells) == ChecksumsFrom(api, acc, GradeCells(api, cells))
    decreases |cells|
  {
    if cells != [] {
      var c := cells[0];
      var acc' := if api.isGrade(c) && api.gradeId(c).Some? then acc[api.gradeId(c).value := api.computeChecksum(c)] else acc;
      ChecksumsFromGradeCells(api, acc', cells[1..]);
      if api.isGrade(c) {
        var g := [c] + GradeCells(api, cells[1..]);
        assert g[0] == c && g[1..] == GradeCells(api, cells[1..]);
      }
    }
  }

  // ---------------------------------------------------------------------
  // is_valid
  // ---------------------------------------------------------------------

  /** The condition `is_valid` checks of one cell: a grade cell has a grade id, a baseline entry, and an equal checksum. */
  predicate Matches<C>(api: Api<C>, checksums: Checksums, c: C)
  {
    api.isGrade(c) ==>
      api.gradeId(c).Some? && api.gradeId(c).value in checksums &&
      checksums[api.gradeId(c).value] == api.computeChecksum(c)
  }

  /** The body of the loop of `is_valid` for one cell: the exception it raises, if any. */
  function CheckCell<C>(api: Api<C>, checksums: Checksums, c: C): (r: Outcome<Error>)
    ensures r.Pass? <==> Matches(api, checksums, c)
    ensures r.Fail? ==> r.error != ScoreIsNone
    ensures r == Fail(MissingGradeId) <==> LacksId(api, c)
  {
    if !api.isGrade(c) then Pass
    else match api.gradeId(c)
      case None => Fail(MissingGradeId)
      case Some(id) =>
        if id !in checksums then Fail(UnknownGradeId(id))
        else if checksums[id] != api.computeChecksum(c) then Fail(ChecksumChanged(id))
        else Pass
  }

  /** What `is_valid(nb, checksums)` returns or raises: the first cell, in order, that fails decides. */
  function IsValidOf<C>(api: Api<C>, cells: seq<C>, checksums: Checksums): Result<bool, Error>
    decreases |cells|
  {
    if cells == [] then Ok(true)
    else match CheckCell(api, checksums, cells[0])
      case Fail(e) => Err(e)
      case Pass => IsValidOf(api, cells[1..], checksums)
  }

  method IsValid<C>(api: Api<C>, cells: seq<C>, checksums: Checksums) returns (r: Result<bool, Error>)
    ensures r == IsValidOf(api, cells, checksums)
  {
    assert cells[0..] == cells;
    for i := 0 to |cells|
      invariant IsValidOf(api, cells[i..], checksums) == IsValidOf(api, cells, checksums)
    {
      var cell := cells[i];
      assert cells[i..][1..] == cells[i + 1..];
      if api.isGrade(cell) {
        var gradeId := api.gradeId(cell);
        if gradeId.None? {
          return Err(MissingGradeId);
        }
        if gradeId.value !in checksums {
          return Err(UnknownGradeId(gradeId.value));
        }
        var oldChecksum := checksums[gradeId.value];
        if oldChecksum != api.computeChecksum(cell) {
          return Err(ChecksumChanged(gradeId.value));
        }
      }
    }
    return Ok(true);
  }

  /** `is_valid` never returns `False`: it returns `True` or raises. */
  lemma {:induction false} IsValidNeverFalse<C>(api: Api<C>, cells: seq<C>, checksums: Checksums)
    ensures IsValidOf(api, cells, checksums) != Ok(false)
    decreases |cells|
  {
    if cells != [] && CheckCell(api, checksums, cells[0]).Pass? {
      IsValidNeverFalse(api, cells[1..], checksums);
    }
  }

  /** `is_valid` returns `True` exactly when every grade cell has a grade id and the baseline holds its checksum under it. */
  lemma {:induction false} IsValidIff<C>(api: Api<C>, cells: seq<C>, checksums: Checksums)
    ensures IsValidOf(api, cells, checksums) == Ok(true) <==>
            forall j :: 0 <= j < |cells| ==> Matches(api, checksums, cells[j])
    decreases |cells|
  {
    if cells != [] {
      IsValidIff(api, cells[1..], checksums);
      if forall j :: 0 <= j < |cells[1..]| ==> Matches(api, checksums, cells[1..][j]) {
        forall j | 0 <= j < |cells| && Matches(api, checksums, cells[0])
          ensures Matches(api, checksums, cells[j])
        {
          if j > 0 {
            assert cells[j] == cells[1..][j - 1];
          }
        }
      } else {
        var j :| 0 <= j < |cells[1..]| && !Matches(api, checksums, cells[1..][j]);
        assert !Matches(api, checksums, cells[j + 1]);
      }
    }
  }

  /** The cells before the first one that fails do not affect the outcome. */
  lemma {:induction false} IsValidSkipsMatching<C>(api: Api<C>, cells: seq<C>, checksums: Checksums, i: nat)
    requires i <= |cells|
    requires forall j :: 0 <= j < i ==> Matches(api, checksums, cells[j])
    ensures IsValidOf(api, cells, checksums) == IsValidOf(api, cells[i..], checksums)
    decreases i
  {
    if i > 0 {
      assert Matches(api, checksums, cells[0]);
      forall j | 0 <= j < i - 1 ensures Matches(api, checksums, cells[1..][j]) {
        assert cells[1..][j] == cells[j + 1];
      }
      IsValidSkipsMatching(api, cells[1..], checksums, i - 1);
      assert cells[1..][i - 1..] == cells[i..];
    }
  }

  /**
   * The first grade cell, in document order, that fails decides which
   * exception `is_valid` raises: a missing grade id (KeyError), an id
   * that is not a baseline key, or a changed checksum.
   */
  lemma IsValidFirstFailure<C>(api: Api<C>, cells: seq<C>, checksums: Checksums, i: nat)
    requires i < |cells| && api.isGrade(cells[i])
    requires forall j :: 0 <= j < i ==> Matches(api, checksums, cells[j])
    ensures api.gradeId(cells[i]).None? ==> IsValidOf(api, cells, checksums) == Err(MissingGradeId)
    ensures api.gradeId(cells[i]).Some? && api.gradeId(cells[i]).value !in checksums ==>
              IsValidOf(api, cells, checksums) == Err(UnknownGradeId(api.gradeId(cells[i]).value))
    ensures api.gradeId(cells[i]).Some? && api.gradeId(cells[i]).value in checksums &&
            checksums[api.gradeId(cells[i]).value] != api.computeChecksum(cells[i]) ==>
              IsValidOf(api, cells, checksums) == Err(ChecksumChanged(api.gradeId(cells[i]).value))
  {
    IsValidSkipsMatching(api, cells, checksums, i);
    assert cells[i..][0] == cells[i];
  }

  /** Conversely, every exception `is_valid` raises is the one of the first cell that fails. */
  lemma {:induction false} IsValidFailureLocated<C>(api: Api<C>, cells: seq<C>, checksums: Checksums, e: Error)
    requires IsValidOf(api, cells, checksums) == Err(e)
    ensures exists i :: 0 <= i < |cells| && CheckCell(api, checksums, cells[i]) == Fail(e) &&
                        forall j :: 0 <= j < i ==> Matches(api, checksums, cells[j])
    decreases |cells|
  {
    if CheckCell(api, checksums, cells[0]).Pass? {
      IsValidFailureLocated(api, cells[1..], checksums, e);
      var i :| 0 <= i < |cells[1..]| && CheckCell(api, checksums, cells[1..][i]) == Fail(e) &&
               forall j :: 0 <= j < i ==> Matches(api, checksums, cells[1..][j]);
      assert CheckCell(api, checksums, cells[i + 1]) == Fail(e);
      forall j | 0 <= j < i + 1 ensures Matches(api, checksums, cells[j]) {
        if j > 0 {
          assert cells[j] == cells[1..][j - 1];
        }
      }
    } else {
      assert CheckCell(api, checksums, cells[0]) == Fail(e);
    }
  }

  /**
   * Only the baseline entries of the notebook's grade ids matter: two
   * baselines that agree on those ids give the same outcome, so keys that
   * match no grade cell are ignored.
   */
  lemma {:induction false} IsValidIgnoresOtherKeys<C>(api: Api<C>, cells: seq<C>, m: Checksums, m': Checksums)
    requires forall j, id :: 0 <= j < |cells| && HasId(api, cells[j], id) ==>
               (id in m <==> id in m') && (id in m ==> m[id] == m'[id])
    ensures IsValidOf(api, cells, m) == IsValidOf(api, cells, m')
    decreases |cells|
  {
    if cells != [] {
      var c := cells[0];
      if api.isGrade(c) && api.gradeId(c).Some? {
        assert HasId(api, cells[0], api.gradeId(c).value);
      }
      assert CheckCell(api, m, c) == CheckCell(api, m', c);
      forall j, id | 0 <= j < |cells[1..]| && HasId(api, cells[1..][j], id)
        ensures (id in m <==> id in m') && (id in m ==> m[id] == m'[id])
      {
        assert HasId(api, cells[j + 1], id);
      }
      IsValidIgnoresOtherKeys(api, cells[1..], m, m');
    }
  }

  lemma {:induction false} IsValidGradeCells<C>(api: Api<C>, cells: seq<C>, checksums: Checksums)
    ensures IsValidOf(api, cells, checksums) == IsValidOf(api, GradeCells(api, cells), checksums)
    decreases |cells|
  {
    if cells != [] {
      IsValidGradeCells(api, cells[1..], checksums);
      if api.isGrade(cells[0]) {
        var g := [cells[0]] + GradeCells(api, cells[1..]);
        assert g[0] == cells[0] && g[1..] == GradeCells(api, cells[1..]);
      }
    }
  }

  // ---------------------------------------------------------------------
  // Round trip: is_valid(nb, calculate_checksums(nb))
  // ---------------------------------------------------------------------

  /** No two grade cells share a grade id. */
  ghost predicate DistinctGradeIds<C>(api: Api<C>, cells: seq<C>)
  {
    forall j, k, id :: 0 <= j < k < |cells| && HasId(api, cells[j], id) ==> !HasId(api, cells[k], id)
  }

  /** Grade cells that share a grade id have equal checksums. */
  ghost predicate ConsistentDuplicates<C>(api: Api<C>, cells: seq<C>)
  {
    forall j, k, id :: 0 <= j < k < |cells| && HasId(api, cells[j], id) && HasId(api, cells[k], id) ==>
      api.computeChecksum(cells[j]) == api.computeChecksum(cells[k])
  }

  /** Every grade cell with an id has a last cell with that id at or after it. */
  lemma {:induction false} LastWithId<C>(api: Api<C>, cells: seq<C>, j: nat, id: GradeId) returns (l: nat)
    requires j < |cells| && HasId(api, cells[j], id)
    ensures j <= l < |cells| && HasId(api, cells[l], id)
    ensures forall k :: l < k < |cells| ==> !HasId(api, cells[k], id)
    decreases |cells| - j
  {
    if k :| j < k < |cells| && HasId(api, cells[k], id) {
      l := LastWithId(api, cells, k, id);
    } else {
      l := j;
    }
  }

  /**
   * Validating a notebook against its own checksums returns `True` exactly
   * when grade cells that share an id have the same checksum: the map keeps
   * only the last one, and an earlier duplicate is then reported changed.
   */
  lemma RoundTripIff<C>(api: Api<C>, cells: seq<C>, m: Checksums)
    requires ChecksumsOf(api, cells) == Ok(m)
    ensures IsValidOf(api, cells, m) == Ok(true) <==> ConsistentDuplicates(api, cells)
  {
    IsValidIff(api, cells, m);
    ChecksumsFails(api, cells);
    ChecksumsKeys(api, cells, m);
    if ConsistentDuplicates(api, cells) {
      forall j | 0 <= j < |cells| ensures Matches(api, m, cells[j]) {
        if api.isGrade(cells[j]) {
          assert !LacksId(api, cells[j]);
          var id := api.gradeId(cells[j]).value;
          var l := LastWithId(api, cells, j, id);
          ChecksumsLastWins(api, cells, m, l, id);
        }
      }
    }
    if IsValidOf(api, cells, m) == Ok(true) {
      forall j, k, id | 0 <= j < k < |cells| && HasId(api, cells[j], id) && HasId(api, cells[k], id)
        ensures api.computeChecksum(cells[j]) == api.computeChecksum(cells[k])
      {
        assert Matches(api, m, cells[j]) && Matches(api, m, cells[k]);
      }
    }
  }

  /** With pairwise distinct grade ids, a notebook is valid against its own checksums. */
  lemma RoundTrip<C>(api: Api<C>, cells: seq<C>)
    requires DistinctGradeIds(api, cells)
    ensures ChecksumsOf(api, cells).Ok? ==> IsValidOf(api, cells, ChecksumsOf(api, cells).value) == Ok(true)
  {
    if ChecksumsOf(api, cells).Ok? {
      RoundTripIff(api, cells, ChecksumsOf(api, cells).value);
    }
  }

  // ---------------------------------------------------------------------
  // grade
  // ---------------------------------------------------------------------

  function Plus(a: Totals, b: Totals): Totals
  {
    Totals(a.totalScore + b.totalScore, a.maxTotalScore + b.maxTotalScore)
  }

  /** Two partial sums in order: the first exception wins, otherwise the componentwise sum. */
  function Combine(x: Result<Totals, Error>, y: Result<Totals, Error>): Result<Totals, Error>
  {
    if x.Err? then x else if y.Err? then y else Ok(Plus(x.value, y.value))
  }

  lemma CombineAssociative(x: Result<Totals, Error>, y: Result<Totals, Error>, z: Result<Totals, Error>)
    ensures Combine(x, Combine(y, z)) == Combine(Combine(x, y), z)
  {
  }

  /** What one cell adds to the running sums of `grade`. */
  function Contribution<C>(api: Api<C>, c: C): Result<Totals, Error>
  {
    if !api.isGrade(c) then Ok(Totals(0.0, 0.0))
    else
      var g := api.determineGrade(c);
      if g.score.None? then Err(ScoreIsNone) else Ok(Totals(g.score.value, g.maxScore))
  }

  /** The componentwise sum of `determine_grade` over the grade cells, or the TypeError of a missing score. */
  function GradeSum<C>(api: Api<C>, cells: seq<C>): (r: Result<Totals, Error>)
    ensures r.Err? ==> r.error == ScoreIsNone
    decreases |cells|
  {
    if cells == [] then Ok(Totals(0.0, 0.0))
    else Combine(Contribution(api, cells[0]), GradeSum(api, cells[1..]))
  }

  /** `grade` is additive over concatenation of notebooks. */
  lemma {:induction false} GradeAppend<C>(api: Api<C>, a: seq<C>, b: seq<C>)
    ensures GradeSum(api, a + b) == Combine(GradeSum(api, a), GradeSum(api, b))
    decreases |a|
  {
    if a == [] {
      assert a + b == b;
    } else {
      assert (a + b)[0] == a[0] && (a + b)[1..] == a[1..] + b;
      GradeAppend(api, a[1..], b);
      CombineAssociative(Contribution(api, a[0]), GradeSum(api, a[1..]), GradeSum(api, b));
    }
  }

  /** One cell's sum is its contribution. */
  lemma GradeSingle<C>(api: Api<C>, c: C)
    ensures GradeSum(api, [c]) == Contribution(api, c)
  {
    assert [c][1..] == [];
  }

  method Grade<C>(api: Api<C>, cells: seq<C>) returns (r: Result<Totals, Error>)
    ensures r == GradeSum(api, cells)
  {
    var totalScore: real := 0.0;
    var maxTotalScore: real := 0.0;
    for i := 0 to |cells|
      invariant GradeSum(api, cells[..i]) == Ok(Totals(totalScore, maxTotalScore))
    {
      var cell := cells[i];
      assert cells[..i + 1] == cells[..i] + [cell];
      GradeAppend(api, cells[..i], [cell]);
      GradeSingle(api, cell);
      if api.isGrade(cell) {
        var g := api.determineGrade(cell);
        if g.score.None? {
          assert GradeSum(api, cells[..i + 1]).Err?;
          assert cells == cells[..i + 1] + cells[i + 1..];
          GradeAppend(api, cells[..i + 1], cells[i + 1..]);
          return Err(ScoreIsNone);
        }
        totalScore := totalScore + g.score.value;
        maxTotalScore := maxTotalScore + g.maxScore;
      }
    }
    assert cells[..|cells|] == cells;
    return Ok(Totals(totalScore, maxTotalScore));
  }

  /** A notebook without grade cells grades to `(0, 0)`. */
  lemma {:induction false} GradeNoGradeCells<C>(api: Api<C>, cells: seq<C>)
    requires forall j :: 0 <= j < |cells| ==> !api.isGrade(cells[j])
    ensures GradeSum(api, cells) == Ok(Totals(0.0, 0.0))
    decreases |cells|
  {
    if cells != [] {
      assert !api.isGrade(cells[0]);
      forall j | 0 <= j < |cells[1..]| ensures !api.isGrade(cells[1..][j]) {
        assert cells[1..][j] == cells[j + 1];
      }
      GradeNoGradeCells(api, cells[1..]);
    }
  }

  /** A grade cell whose score is `None`: adding it raises TypeError. */
  predicate NoScore<C>(api: Api<C>, c: C)
  {
    api.isGrade(c) && api.determineGrade(c).score.None?
  }

  /** `grade` raises (TypeError) exactly when some grade cell has no score. */
  lemma {:induction false} GradeFails<C>(api: Api<C>, cells: seq<C>)
    ensures GradeSum(api, cells).Err? <==> exists j :: 0 <= j < |cells| && NoScore(api, cells[j])
    decreases |cells|
  {
    if cells != [] {
      GradeFails(api, cells[1..]);
      assert Contribution(api, cells[0]).Err? <==> NoScore(api, cells[0]);
      assert forall j :: 0 <= j < |cells[1..]| ==> cells[1..][j] == cells[j + 1];
      if exists j :: 0 <= j < |cells| && NoScore(api, cells[j]) {
        var j :| 0 <= j < |cells| && NoScore(api, cells[j]);
        if j > 0 {
          assert cells[j] == cells[1..][j - 1];
        }
      }
    }
  }

  /** The totals do not depend on the order of the cells: summing is commutative. */
  lemma GradeCommutes<C>(api: Api<C>, a: seq<C>, b: seq<C>)
    ensures GradeSum(api, a + b) == GradeSum(api, b + a)
  {
    GradeAppend(api, a, b);
    GradeAppend(api, b, a);
  }

  lemma {:induction false} GradeSumGradeCells<C>(api: Api<C>, cells: seq<C>)
    ensures GradeSum(api, cells) == GradeSum(api, GradeCells(api, cells))
    decreases |cells|
  {
    if cells != [] {
      GradeSumGradeCells(api, cells[1..]);
      if api.isGrade(cells[0]) {
        var g := [cells[0]] + GradeCells(api, cells[1..]);
        assert g[0] == cells[0] && g[1..] == GradeCells(api, cells[1..]);
      }
    }
  }

  // ---------------------------------------------------------------------
  // Cells that are not grade cells
  // ---------------------------------------------------------------------

  /**
   * The three functions look at grade cells only: the checksum map, the
   * outcome of validation and the totals are those of the grade cells alone.
   */
  lemma OnlyGradeCellsMatter<C>(api: Api<C>, cells: seq<C>, checksums: Checksums)
    ensures ChecksumsOf(api, cells) == ChecksumsOf(api, GradeCells(api, cells))
    ensures IsValidOf(api, cells, checksums) == IsValidOf(api, GradeCells(api, cells), checksums)
    ensures GradeSum(api, cells) == GradeSum(api, GradeCells(api, cells))
  {
    ChecksumsFromGradeCells(api, map[], cells);
    IsValidGradeCells(api, cells, checksums);
    GradeSumGradeCells(api, cells);
  }

  lemma {:induction false} SameGradeCellsFilter<C>(api: Api<C>, a: seq<C>, b: seq<C>)
    requires SameGradeCells(api, a, b)
    ensures GradeCells(api, a) == GradeCells(api, b)
    decreases |a|
  {
    if a != [] {
      assert a[0] == b[0] || (!api.isGrade(a[0]) && !api.isGrade(b[0]));
      forall j | 0 <= j < |a[1..]|
        ensures a[1..][j] == b[1..][j] || (!api.isGrade(a[1..][j]) && !api.isGrade(b[1..][j]))
      {
        assert a[1..][j] == a[j + 1] && b[1..][j] == b[j + 1];
      }
      SameGradeCellsFilter(api, a[1..], b[1..]);
    }
  }

  /** Editing cells that are not grade cells changes neither the checksums, nor validation, nor the totals. */
  lemma UngradedEdit<C>(api: Api<C>, a: seq<C>, b: seq<C>, checksums: Checksums)
    requires SameGradeCells(api, a, b)
    ensures ChecksumsOf(api, a) == ChecksumsOf(api, b)
    ensures IsValidOf(api, a, checksums) == IsValidOf(api, b, checksums)
    ensures GradeSum(api, a) == GradeSum(api, b)
  {
    SameGradeCellsFilter(api, a, b);
    OnlyGradeCellsMatter(api, a, checksums);
    OnlyGradeCellsMatter(api, b, checksums);
  }
}
