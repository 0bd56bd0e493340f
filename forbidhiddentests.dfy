/**
 * The `ForbidHiddenTests` preprocessor of
 * `ldsagrader/preprocessors/forbidhiddentests.py`: a cell whose source
 * has a line containing the begin or the end delimiter of a hidden test
 * region is rejected; any other cell passes through unchanged.
 */
module ForbidHiddenTests {
  import opened Wrappers

  const DEFAULT_BEGIN_TEST_DELIMETER: string := "BEGIN HIDDEN TESTS"
  const DEFAULT_END_TEST_DELIMETER: string := "END HIDDEN TESTS"

  /** The two configurable options of the preprocessor (plain strings here). */
  datatype Config = Config(beginTestDelimeter: string, endTestDelimeter: string)

  const DEFAULT_CONFIG: Config := Config(DEFAULT_BEGIN_TEST_DELIMETER, DEFAULT_END_TEST_DELIMETER)

  /** The exception raised for a cell with a hidden test region. */
  datatype Error = EncounteredHiddenTestRegion

  predicate NoNewline(s: string)
  {
    forall i :: 0 <= i < |s| ==> s[i] != '\n'
  }

  /** Python's `"\n".join(lines)`. */
  function Join(lines: seq<string>): string
    decreases |lines|
  {
    if lines == [] then ""
    else if |lines| == 1 then lines[0]
    else lines[0] + ("\n" + Join(lines[1..]))
  }

  /**
   * Python's `s.split("\n")`: the maximal newline-free pieces between
   * newlines, at least one, which join back to `s`.
   */
  function Split(s: string): (lines: seq<string>)
    ensures |lines| >= 1
    ensures forall k :: 0 <= k < |lines| ==> NoNewline(lines[k])
    ensures Join(lines) == s
    decreases |s|
  {
    if s == [] then [""]
    else if s[0] == '\n' then
      var rest := Split(s[1..]);
      assert Join([""] + rest) == "" + ("\n" + Join(rest));
      [""] + rest
    else
      var rest := Split(s[1..]);
      var lines := [[s[0]] + rest[0]] + rest[1..];
      assert lines[1..] == rest[1..];
      assert forall k :: 1 <= k < |lines| ==> lines[k] == rest[k];
      assert |rest| > 1 ==> Join(rest) == rest[0] + ("\n" + Join(rest[1..]));
      assert |rest| > 1 ==> Join(lines) == [s[0]] + (rest[0] + ("\n" + Join(rest[1..])));
      assert s == [s[0]] + s[1..];
      lines
  }

  /** `needle` occurs in `line` starting at position `i`. */
  predicate OccursAt(line: string, needle: string, i: nat)
  {
    i + |needle| <= |line| && forall j :: i <= j < i + |needle| ==> line[j] == needle[j - i]
  }

  lemma OccursShift(line: string, needle: string, i: nat)
    requires |line| > 0
    ensures OccursAt(line[1..], needle, i) <==> OccursAt(line, needle, i + 1)
  {
  }

  /** Python's `needle in line`: `needle` occurs in `line` as a contiguous, case-sensitive substring. */
  function Contains(line: string, needle: string): (b: bool)
    ensures b <==> exists i: nat :: OccursAt(line, needle, i)
    decreases |line|
  {
    if |line| < |needle| then false
    else if OccursAt(line, needle, 0) then true
    else
      var b := Contains(line[1..], needle);
      assert b <==> exists i: nat :: OccursAt(line, needle, i) by {
        if b {
          var i: nat :| OccursAt(line[1..], needle, i);
          OccursShift(line, needle, i);
        }
        if exists i: nat :: OccursAt(line, needle, i) {
          var i: nat :| OccursAt(line, needle, i);
          assert i != 0;
          OccursShift(line, needle, i - 1);
        }
      }
      b
  }

  /** The test in the loop body: the line contains either delimiter. */
  predicate Marked(cfg: Config, line: string)
  {
    Contains(line, cfg.beginTestDelimeter) || Contains(line, cfg.endTestDelimeter)
  }

  /** The loop over the lines: raise at the first marked line. */
  function ScanLines(cfg: Config, lines: seq<string>): (r: Outcome<Error>)
    ensures r.Fail? <==> exists k :: 0 <= k < |lines| && Marked(cfg, lines[k])
    decreases |lines|
  {
    if lines == [] then Pass
    else if Marked(cfg, lines[0]) then Fail(EncounteredHiddenTestRegion)
    else
      var r := ScanLines(cfg, lines[1..]);
      assert forall k :: 1 <= k < |lines| ==> lines[k] == lines[1..][k - 1];
      r
  }

  /** `_detect_hidden_test_region`: raises iff a line of the cell source contains a delimiter. */
  function DetectHiddenTestRegion(cfg: Config, source: string): (r: Outcome<Error>)
    ensures r.Fail? <==> exists k :: 0 <= k < |Split(source)| && Marked(cfg, Split(source)[k])
  {
    var r := ScanLines(cfg, Split(source));
    assert r.Fail? ==> exists k :: 0 <= k < |Split(source)| && Marked(cfg, Split(source)[k]);
    assert (exists k :: 0 <= k < |Split(source)| && Marked(cfg, Split(source)[k])) ==> r.Fail?;
    r
  }

  /**
   * `preprocess_cell`: the cell and the resources, unchanged, unless the
   * cell source has a hidden test region. `source` reads a cell's source;
   * `cellIndex` is unused, as in Python's `preprocess_cell`.
   */
  function PreprocessCell<C, R>(cfg: Config, source: C -> string, cell: C, resources: R, cellIndex: int): (r: Result<(C, R), Error>)
    ensures r.Ok? <==> DetectHiddenTestRegion(cfg, source(cell)) == Pass
    ensures r.Ok? ==> r.value.0 == cell && r.value.1 == resources
    ensures r.Err? ==> r.error == EncounteredHiddenTestRegion
  {
    match DetectHiddenTestRegion(cfg, source(cell))
    case Fail(e) => Err(e)
    case Pass => Ok((cell, resources))
  }

  // ---------------------------------------------------------------------
  // Splitting
  // ---------------------------------------------------------------------

  /** Splitting a newline-free word followed by more text extends the first line. */
  lemma {:induction false} SplitWord(w: string, t: string)
    requires NoNewline(w)
    ensures Split(w + t) == [w + Split(t)[0]] + Split(t)[1..]
    decreases |w|
  {
    var st := Split(t);
    if w != [] {
      assert (w + t)[0] == w[0] && (w + t)[1..] == w[1..] + t;
      SplitWord(w[1..], t);
      var rest := Split(w[1..] + t);
      assert rest == [w[1..] + st[0]] + st[1..];
      assert Split(w + t) == [[w[0]] + rest[0]] + rest[1..];
      assert rest[1..] == st[1..];
      assert [w[0]] + (w[1..] + st[0]) == w + st[0];
    } else {
      assert w + t == t;
      assert w + st[0] == st[0];
      assert st == [st[0]] + st[1..];
    }
  }

  /** A leading newline splits off an empty first line. */
  lemma SplitNewline(t: string)
    ensures Split("\n" + t) == [""] + Split(t)
  {
    assert ("\n" + t)[0] == '\n' && ("\n" + t)[1..] == t;
  }

  /** A newline-free text splits into itself. */
  lemma SplitOneLine(w: string)
    requires NoNewline(w)
    ensures Split(w) == [w]
  {
    SplitWord(w, "");
    assert Split("") == [""];
    assert w + "" == w;
  }

  /** Splitting undoes joining, for a non-empty list of newline-free lines. */
  lemma {:induction false} SplitJoin(lines: seq<string>)
    requires |lines| >= 1
    requires forall k :: 0 <= k < |lines| ==> NoNewline(lines[k])
    ensures Split(Join(lines)) == lines
    decreases |lines|
  {
    if |lines| == 1 {
      SplitOneLine(lines[0]);
    } else {
      var tail := "\n" + Join(lines[1..]);
      SplitJoin(lines[1..]);
      SplitNewline(Join(lines[1..]));
      SplitWord(lines[0], tail);
      var st := Split(tail);
      assert st[0] == "" && st[1..] == lines[1..];
      assert lines[0] + st[0] == lines[0];
      assert lines == [lines[0]] + lines[1..];
    }
  }

  /** The first line of a split is a prefix of the text, ended by a newline or by the end of the text. */
  lemma {:induction false} SplitHead(t: string)
    ensures |Split(t)[0]| <= |t| && t[..|Split(t)[0]|] == Split(t)[0]
    ensures |Split(t)[0]| < |t| ==> t[|Split(t)[0]|] == '\n'
    decreases |t|
  {
    if t != [] && t[0] != '\n' {
      SplitHead(t[1..]);
      assert t == [t[0]] + t[1..];
    }
  }

  // ---------------------------------------------------------------------
  // Substrings of lines and of the source
  // ---------------------------------------------------------------------

  /** A needle in the text after its first character is in the text. */
  lemma ContainsTail(s: string, needle: string)
    requires |s| > 0 && Contains(s[1..], needle)
    ensures Contains(s, needle)
  {
    var i: nat :| OccursAt(s[1..], needle, i);
    OccursShift(s, needle, i);
  }

  /** A needle in the text that is not at its start is in the text after the first character. */
  lemma ContainsUncons(s: string, needle: string)
    requires Contains(s, needle) && !OccursAt(s, needle, 0)
    ensures |s| > 0 && Contains(s[1..], needle)
  {
    var i: nat :| OccursAt(s, needle, i);
    OccursShift(s, needle, i - 1);
  }

  /** A needle found in a prefix is found in the whole text. */
  lemma ContainsPrefix(p: string, s: string, needle: string)
    requires |p| <= |s| && s[..|p|] == p
    requires Contains(p, needle)
    ensures Contains(s, needle)
  {
    var i: nat :| OccursAt(p, needle, i);
    forall j | 0 <= j < |needle| ensures s[i + j] == needle[j] {
      assert s[..|p|][i + j] == s[i + j];
    }
    assert OccursAt(s, needle, i);
  }

  /** Matching is anywhere in the text, not only at the start or on the whole of it. */
  lemma ContainsAnywhere(u: string, needle: string, v: string)
    ensures Contains(u + needle + v, needle)
  {
    assert OccursAt(u + needle + v, needle, |u|);
  }

  /** A needle in a line of the split of the source is in the source. */
  lemma {:induction false} LineToSource(s: string, needle: string, k: nat)
    requires k < |Split(s)| && Contains(Split(s)[k], needle)
    ensures Contains(s, needle)
    decreases |s|
  {
    if s != [] {
      var t := s[1..];
      var rest := Split(t);
      if s[0] == '\n' {
        assert Split(s) == [""] + rest;
        if k == 0 {
          assert OccursAt(s, needle, 0);
        } else {
          assert Split(s)[k] == rest[k - 1];
          LineToSource(t, needle, k - 1);
          ContainsTail(s, needle);
        }
      } else {
        var first := [s[0]] + rest[0];
        assert Split(s) == [first] + rest[1..];
        if k == 0 {
          SplitHead(t);
          assert s[..|first|] == first;
          ContainsPrefix(first, s, needle);
        } else {
          assert Split(s)[k] == rest[k];
          LineToSource(t, needle, k);
          ContainsTail(s, needle);
        }
      }
    }
  }

  /** A newline-free needle in the source is in some line of its split. */
  lemma {:induction false} SourceToLine(s: string, needle: string) returns (k: nat)
    requires NoNewline(needle) && Contains(s, needle)
    ensures k < |Split(s)| && Contains(Split(s)[k], needle)
    decreases |s|
  {
    if s == [] {
      k := 0;
    } else {
      var t := s[1..];
      var rest := Split(t);
      if s[0] == '\n' {
        assert Split(s) == [""] + rest;
        if needle == [] {
          k := 0;
          assert OccursAt(Split(s)[0], needle, 0);
        } else {
          assert !OccursAt(s, needle, 0) by {
            assert needle[0] != '\n';
          }
          ContainsUncons(s, needle);
          var k' := SourceToLine(t, needle);
          k := k' + 1;
          assert Split(s)[k] == rest[k'];
        }
      } else {
        var first := [s[0]] + rest[0];
        assert Split(s) == [first] + rest[1..];
        if OccursAt(s, needle, 0) {
          SplitHead(t);
          if |first| < |s| {
            assert s[|first|] == t[|rest[0]|];
            NewlineEndsMatch(s, needle, 0, |first|);
          }
          forall j | 0 <= j < |needle| ensures first[j] == needle[j] {
            assert s[..|first|][j] == s[0 + j];
          }
          assert OccursAt(first, needle, 0);
          k := 0;
        } else {
          ContainsUncons(s, needle);
          var k' := SourceToLine(t, needle);
          if k' == 0 {
            assert first[1..] == rest[0];
            ContainsTail(first, needle);
            k := 0;
          } else {
            k := k';
            assert Split(s)[k] == rest[k'];
          }
        }
      }
    }
  }

  /** A match of a newline-free needle ends at or before any newline after its start. */
  lemma NewlineEndsMatch(s: string, needle: string, i: nat, p: nat)
    requires OccursAt(s, needle, i) && NoNewline(needle)
    requires i <= p < |s| && s[p] == '\n'
    ensures i + |needle| <= p
  {
  }

  /** A line without newlines never contains a delimiter that has one. */
  lemma NewlineNeedleNeverInLine(line: string, needle: string)
    requires NoNewline(line) && !NoNewline(needle)
    ensures !Contains(line, needle)
  {
    var p :| 0 <= p < |needle| && needle[p] == '\n';
    forall i: nat ensures !OccursAt(line, needle, i) {
      if i + |needle| <= |line| {
        assert line[i + p] != '\n';
      }
    }
  }

  // ---------------------------------------------------------------------
  // The detection in terms of the whole source
  // ---------------------------------------------------------------------

  /** With newline-free delimiters, the cell is rejected iff its whole source contains a delimiter. */
  lemma DetectIffSourceContains(cfg: Config, source: string)
    requires NoNewline(cfg.beginTestDelimeter) && NoNewline(cfg.endTestDelimeter)
    ensures DetectHiddenTestRegion(cfg, source).Fail? <==>
            Contains(source, cfg.beginTestDelimeter) || Contains(source, cfg.endTestDelimeter)
  {
    var lines := Split(source);
    if DetectHiddenTestRegion(cfg, source).Fail? {
      var k :| 0 <= k < |lines| && Marked(cfg, lines[k]);
      if Contains(lines[k], cfg.beginTestDelimeter) {
        LineToSource(source, cfg.beginTestDelimeter, k);
      } else {
        LineToSource(source, cfg.endTestDelimeter, k);
      }
    }
    if Contains(source, cfg.beginTestDelimeter) {
      var k := SourceToLine(source, cfg.beginTestDelimeter);
      assert Marked(cfg, lines[k]);
    }
    if Contains(source, cfg.endTestDelimeter) {
      var k := SourceToLine(source, cfg.endTestDelimeter);
      assert Marked(cfg, lines[k]);
    }
  }

  /** A source containing neither delimiter is never rejected, whatever the delimiters. */
  lemma NoOccurrencePasses(cfg: Config, source: string)
    requires !Contains(source, cfg.beginTestDelimeter) && !Contains(source, cfg.endTestDelimeter)
    ensures DetectHiddenTestRegion(cfg, source) == Pass
  {
    var lines := Split(source);
    forall k | 0 <= k < |lines| ensures !Marked(cfg, lines[k]) {
      if Contains(lines[k], cfg.beginTestDelimeter) {
        LineToSource(source, cfg.beginTestDelimeter, k);
      }
      if Contains(lines[k], cfg.endTestDelimeter) {
        LineToSource(source, cfg.endTestDelimeter, k);
      }
    }
  }

  /** Delimiters that both contain a newline never match, since no line has one. */
  lemma MultilineDelimitersNeverMatch(cfg: Config, source: string)
    requires !NoNewline(cfg.beginTestDelimeter) && !NoNewline(cfg.endTestDelimeter)
    ensures DetectHiddenTestRegion(cfg, source) == Pass
  {
    var lines := Split(source);
    forall k | 0 <= k < |lines| ensures !Marked(cfg, lines[k]) {
      NewlineNeedleNeverInLine(lines[k], cfg.beginTestDelimeter);
      NewlineNeedleNeverInLine(lines[k], cfg.endTestDelimeter);
    }
  }

  /** With the default delimiters, the cell is rejected iff its source contains either default marker. */
  lemma DefaultDetectIff(source: string)
    ensures DetectHiddenTestRegion(DEFAULT_CONFIG, source).Fail? <==>
            Contains(source, "BEGIN HIDDEN TESTS") || Contains(source, "END HIDDEN TESTS")
  {
    assert NoNewline(DEFAULT_BEGIN_TEST_DELIMETER);
    assert NoNewline(DEFAULT_END_TEST_DELIMETER);
    DetectIffSourceContains(DEFAULT_CONFIG, source);
  }

  /** The empty source passes with the default delimiters. */
  lemma EmptySourcePasses()
    ensures DetectHiddenTestRegion(DEFAULT_CONFIG, "") == Pass
  {
    assert !OccursAt("", DEFAULT_BEGIN_TEST_DELIMETER, 0);
    NoOccurrencePasses(DEFAULT_CONFIG, "");
  }

  /** A needle whose first character is at no possible start position does not occur. */
  lemma FirstCharAbsent(line: string, needle: string)
    requires |needle| > 0
    requires forall q :: 0 <= q && q + |needle| <= |line| ==> line[q] != needle[0]
    ensures !Contains(line, needle)
  {
    forall i: nat ensures !OccursAt(line, needle, i) {
      if i + |needle| <= |line| {
        assert line[i] != needle[0];
      }
    }
  }

  /**
   * Matching is case-sensitive: a source without the capital letters that
   * start the default markers (for instance the markers written in lower
   * case) is never rejected.
   */
  lemma WithoutCapitalsPasses(source: string)
    requires forall q :: 0 <= q < |source| ==> source[q] != 'B' && source[q] != 'E'
    ensures DetectHiddenTestRegion(DEFAULT_CONFIG, source) == Pass
  {
    assert DEFAULT_BEGIN_TEST_DELIMETER[0] == 'B' && DEFAULT_END_TEST_DELIMETER[0] == 'E';
    FirstCharAbsent(source, DEFAULT_BEGIN_TEST_DELIMETER);
    FirstCharAbsent(source, DEFAULT_END_TEST_DELIMETER);
    NoOccurrencePasses(DEFAULT_CONFIG, source);
  }

  /** A default marker anywhere in any line of the source, between any text, is rejected. */
  lemma MarkerAnywhereRejected(u: string, v: string)
    ensures DetectHiddenTestRegion(DEFAULT_CONFIG, u + DEFAULT_BEGIN_TEST_DELIMETER + v).Fail?
    ensures DetectHiddenTestRegion(DEFAULT_CONFIG, u + DEFAULT_END_TEST_DELIMETER + v).Fail?
  {
    ContainsAnywhere(u, DEFAULT_BEGIN_TEST_DELIMETER, v);
    ContainsAnywhere(u, DEFAULT_END_TEST_DELIMETER, v);
    DefaultDetectIff(u + DEFAULT_BEGIN_TEST_DELIMETER + v);
    DefaultDetectIff(u + DEFAULT_END_TEST_DELIMETER + v);
  }
}
