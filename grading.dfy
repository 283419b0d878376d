/**
 * The grading pass of `submit_solution`: each test case is run, its output
 * compared with the expected output (both stripped), and the points of the
 * passing tests are summed into `total_score`. The answer of `run_code` for
 * each test is an input here (one RunOutcome per test case); the HTTP traffic
 * behind it is not part of this model.
 */
module Grading {
  import opened Wrappers
  import opened Text

  /**
   * One entry of the `test_cases` setting. A key the author left out reads as
   * the default the source gives it: `''` for input and expected output, 0
   * for points.
   */
  datatype TestCase = TestCase(id: string, input: string, expectedOutput: string, points: int)

  /**
   * What `run_code` answered for one test: `{'success': False, 'error': ...}`,
   * or success with the service's `stdout`, which is JSON `null` (None) when
   * the program printed nothing.
   */
  datatype RunOutcome =
    | RunFailed(error: string)
    | RunSucceeded(output: Option<string>, executionTime: string)

  /** One entry of `test_results`. */
  datatype TestResult =
    | Errored(testId: string, error: string)
    | Compared(testId: string, passed: bool, expected: string, actual: string, points: int, executionTime: string)

  /** The `points` recorded for a test: 0 for a failed run. */
  function Earned(r: TestResult): int {
    match r
    case Errored(_, _) => 0
    case Compared(_, _, _, _, points, _) => points
  }

  /** The `passed` recorded for a test: False for a failed run. */
  predicate Passed(r: TestResult) {
    r.Compared? && r.passed
  }

  /**
   * When a test passes, stated on the test and the run alone: the run
   * succeeded and its stripped output equals the stripped expected output.
   */
  predicate Passes(t: TestCase, o: RunOutcome) {
    o.RunSucceeded? && o.output.Some? && Strip(t.expectedOutput) == Strip(o.output.value)
  }

  /** A run whose output is `null`: `None.strip()` raises inside the loop. */
  predicate NullOutput(o: RunOutcome) {
    o.RunSucceeded? && o.output.None?
  }

  /**
   * One iteration of the loop over `test_cases`. None stands for the
   * exception raised by stripping a `null` output.
   */
  function Evaluate(t: TestCase, o: RunOutcome): (r: Option<TestResult>)
    ensures r.None? <==> NullOutput(o)
    ensures r.Some? ==> r.value.testId == t.id
                        && (Passed(r.value) <==> Passes(t, o))
                        && Earned(r.value) == (if Passes(t, o) then t.points else 0)
  {
    match o
    case RunFailed(error) => Some(Errored(t.id, error))
    case RunSucceeded(None, _) => None
    case RunSucceeded(Some(output), time) =>
      var expected := Strip(t.expectedOutput);
      var actual := Strip(output);
      var passed := expected == actual;
      Some(Compared(t.id, passed, expected, actual, if passed then t.points else 0, time))
  }

  /** The whole loop: the list `test_results`, or None when it raised. */
  function Grade(tests: seq<TestCase>, outcomes: seq<RunOutcome>): (r: Option<seq<TestResult>>)
    requires |tests| == |outcomes|
    ensures r.Some? ==> |r.value| == |tests|
  {
    if tests == [] then Some([])
    else
      var n := |tests| - 1;
      match Grade(tests[..n], outcomes[..n])
      case None => None
      case Some(results) =>
        match Evaluate(tests[n], outcomes[n])
        case None => None
        case Some(r) => Some(results + [r])
  }

  /** `total_score`: the sum of the recorded points. */
  function Total(results: seq<TestResult>): int {
    if results == [] then 0 else Total(results[..|results| - 1]) + Earned(results[|results| - 1])
  }

  /** The reference score: the points of the tests that pass, added up. */
  function PassedPoints(tests: seq<TestCase>, outcomes: seq<RunOutcome>): int
    requires |tests| == |outcomes|
  {
    if tests == [] then 0
    else
      var n := |tests| - 1;
      PassedPoints(tests[..n], outcomes[..n]) + (if Passes(tests[n], outcomes[n]) then tests[n].points else 0)
  }

  /** Every point the tests offer. */
  function SumPoints(tests: seq<TestCase>): int {
    if tests == [] then 0 else SumPoints(tests[..|tests| - 1]) + tests[|tests| - 1].points
  }

  /** Once a prefix of the loop has raised, the whole loop has. */
  lemma {:induction false} GradePrefixNone(tests: seq<TestCase>, outcomes: seq<RunOutcome>, k: nat)
    requires |tests| == |outcomes| && k <= |tests|
    requires Grade(tests[..k], outcomes[..k]).None?
    ensures Grade(tests, outcomes).None?
    decreases |tests|
  {
    if k < |tests| {
      var n := |tests| - 1;
      assert tests[..n][..k] == tests[..k] && outcomes[..n][..k] == outcomes[..k];
      GradePrefixNone(tests[..n], outcomes[..n], k);
    } else {
      assert tests[..k] == tests && outcomes[..k] == outcomes;
    }
  }

  /**
   * The grading pass completes exactly when no successful run came back with
   * a `null` output; it then records one result per test, in order, each the
   * evaluation of that test against its own run.
   */
  lemma {:induction false} GradeShape(tests: seq<TestCase>, outcomes: seq<RunOutcome>)
    requires |tests| == |outcomes|
    ensures Grade(tests, outcomes).Some? <==> forall i :: 0 <= i < |outcomes| ==> !NullOutput(outcomes[i])
    ensures Grade(tests, outcomes).Some? ==>
              |Grade(tests, outcomes).value| == |tests|
              && forall i :: 0 <= i < |tests| ==> Evaluate(tests[i], outcomes[i]) == Some(Grade(tests, outcomes).value[i])
  {
    if tests != [] {
      var n := |tests| - 1;
      GradeShape(tests[..n], outcomes[..n]);
      assert forall i :: 0 <= i < n ==> tests[..n][i] == tests[i] && outcomes[..n][i] == outcomes[i];
    }
  }

  /** `total_score` is the reference score: the points of the passing tests. */
  lemma {:induction false} TotalIsPassedPoints(tests: seq<TestCase>, outcomes: seq<RunOutcome>)
    requires |tests| == |outcomes| && Grade(tests, outcomes).Some?
    ensures Total(Grade(tests, outcomes).value) == PassedPoints(tests, outcomes)
  {
    if tests != [] {
      var n := |tests| - 1;
      TotalIsPassedPoints(tests[..n], outcomes[..n]);
      var results := Grade(tests[..n], outcomes[..n]).value;
      var r := Evaluate(tests[n], outcomes[n]).value;
      assert Grade(tests, outcomes).value == results + [r];
      assert (results + [r])[..|results|] == results;
      assert Total(results + [r]) == Total(results) + Earned(r);
    }
  }

  /** With non-negative points, the reference score lies between 0 and the points on offer. */
  lemma {:induction false} PassedPointsBounds(tests: seq<TestCase>, outcomes: seq<RunOutcome>)
    requires |tests| == |outcomes|
    requires forall i :: 0 <= i < |tests| ==> tests[i].points >= 0
    ensures 0 <= PassedPoints(tests, outcomes) <= SumPoints(tests)
  {
    if tests != [] {
      var n := |tests| - 1;
      PassedPointsBounds(tests[..n], outcomes[..n]);
    }
  }

  /** When every test passes, the score is every point on offer (not `max_score`). */
  lemma {:induction false} AllPassedScoresSum(tests: seq<TestCase>, outcomes: seq<RunOutcome>)
    requires |tests| == |outcomes|
    requires forall i :: 0 <= i < |tests| ==> Passes(tests[i], outcomes[i])
    ensures PassedPoints(tests, outcomes) == SumPoints(tests)
  {
    if tests != [] {
      var n := |tests| - 1;
      AllPassedScoresSum(tests[..n], outcomes[..n]);
    }
  }

  /** When no test passes, the score is 0. */
  lemma {:induction false} NonePassedScoresZero(tests: seq<TestCase>, outcomes: seq<RunOutcome>)
    requires |tests| == |outcomes|
    requires forall i :: 0 <= i < |tests| ==> !Passes(tests[i], outcomes[i])
    ensures PassedPoints(tests, outcomes) == 0
  {
    if tests != [] {
      var n := |tests| - 1;
      NonePassedScoresZero(tests[..n], outcomes[..n]);
    }
  }

  /**
   * The bounds on `total_score` for a completed grading pass: between 0 and
   * the sum of the tests' points when no test carries negative points.
   */
  lemma TotalBounds(tests: seq<TestCase>, outcomes: seq<RunOutcome>)
    requires |tests| == |outcomes| && Grade(tests, outcomes).Some?
    requires forall i :: 0 <= i < |tests| ==> tests[i].points >= 0
    ensures 0 <= Total(Grade(tests, outcomes).value) <= SumPoints(tests)
  {
    TotalIsPassedPoints(tests, outcomes);
    PassedPointsBounds(tests, outcomes);
  }

  /**
   * The loop of `submit_solution` over the test cases: it appends one result
   * per test and adds the test's points to `total_score`; a `null` output
   * ends it with the exception (None).
   */
  method GradeTests(tests: seq<TestCase>, outcomes: seq<RunOutcome>) returns (graded: Option<seq<TestResult>>, totalScore: int)
    requires |tests| == |outcomes|
    ensures graded == Grade(tests, outcomes)
    ensures graded.Some? ==> totalScore == Total(graded.value) == PassedPoints(tests, outcomes)
  {
    var results: seq<TestResult> := [];
    totalScore := 0;
    var i := 0;
    while i < |tests|
      invariant 0 <= i <= |tests|
      invariant Grade(tests[..i], outcomes[..i]) == Some(results)
      invariant totalScore == Total(results)
    {
      assert tests[..i + 1][..i] == tests[..i] && outcomes[..i + 1][..i] == outcomes[..i];
      var r := Evaluate(tests[i], outcomes[i]);
      if r.None? {
        GradePrefixNone(tests, outcomes, i + 1);
        return None, totalScore;
      }
      assert (results + [r.value])[..|results|] == results;
      assert Grade(tests[..i + 1], outcomes[..i + 1]) == Some(results + [r.value]);
      results := results + [r.value];
      totalScore := totalScore + Earned(r.value);
      i := i + 1;
    }
    assert tests[..i] == tests && outcomes[..i] == outcomes;
    graded := Some(results);
    TotalIsPassedPoints(tests, outcomes);
  }

  /** The default test case: `5 3` must print `8`, worth 10 points. */
  const SampleTest := TestCase("test_1", "5 3", "8", 10)

  /**
   * The sample test graded: an output of `8` (with its newline) earns the raw
   * 10 points, an output of `9` earns 0 and is recorded as `9`.
   */
  lemma SampleTestScores()
    ensures Grade([SampleTest], [RunSucceeded(Some("8\n"), "0.01")]) == Some([Compared("test_1", true, "8", "8", 10, "0.01")])
    ensures Grade([SampleTest], [RunSucceeded(Some("9"), "0.01")]) == Some([Compared("test_1", false, "8", "9", 0, "0.01")])
  {
    SamplePasses();
    SampleFails();
  }

  /** The sample test against the output `8` and a newline. */
  lemma SamplePasses()
    ensures Grade([SampleTest], [RunSucceeded(Some("8\n"), "0.01")]) == Some([Compared("test_1", true, "8", "8", 10, "0.01")])
  {
    StripNewline();
    StripDigit("8");
    GradeCompared(SampleTest, "8\n", "0.01");
  }

  /** The sample test against the output `9`. */
  lemma SampleFails()
    ensures Grade([SampleTest], [RunSucceeded(Some("9"), "0.01")]) == Some([Compared("test_1", false, "8", "9", 0, "0.01")])
  {
    StripDigit("8");
    StripDigit("9");
    assert "8" != "9" by { assert "8"[0] != "9"[0]; }
    GradeCompared(SampleTest, "9", "0.01");
  }

  /** A one-test pass over a non-null output records the comparison of the stripped strings. */
  lemma GradeCompared(t: TestCase, output: string, time: string)
    ensures var e, a := Strip(t.expectedOutput), Strip(output);
            Grade([t], [RunSucceeded(Some(output), time)]) == Some([Compared(t.id, e == a, e, a, if e == a then t.points else 0, time)])
  {
    GradeSingle(t, RunSucceeded(Some(output), time));
  }

  /** A one-test pass records that test's evaluation. */
  lemma GradeSingle(t: TestCase, o: RunOutcome)
    requires !NullOutput(o)
    ensures Grade([t], [o]) == Some([Evaluate(t, o).value])
  {
    assert [t][..0] == [] && [o][..0] == [];
    assert Grade([], []) == Some([]);
    assert [] + [Evaluate(t, o).value] == [Evaluate(t, o).value];
  }

  lemma StripNewline()
    ensures Strip("8\n") == "8"
  {
    assert IsSpace("8\n"[1]) && "8\n"[..1] == "8";
    assert StripEnd("8\n") == "8";
    assert StripStart("8\n") == "8\n";
  }

  lemma StripDigit(d: string)
    requires |d| == 1 && '0' <= d[0] <= '9'
    ensures Strip(d) == d
  {
    assert !IsSpace(d[0]);
    assert StripStart(d) == d;
    assert d[|d| - 1] == d[0];
    assert StripEnd(d) == d;
  }

  /** The best score after a sequence of totals, starting from `best`: `if total > best: best = total`. */
  function BestAfter(best: int, totals: seq<int>): (r: int)
    ensures r >= best
    ensures totals != [] ==> r >= totals[|totals| - 1]
  {
    if totals == [] then best else Max(BestAfter(best, totals[..|totals| - 1]), totals[|totals| - 1])
  }

  function Max(a: int, b: int): int {
    if b > a then b else a
  }

  /**
   * The best score never falls below where it started or below any total
   * seen, and it is one of them.
   */
  lemma {:induction false} BestAfterBounds(best: int, totals: seq<int>)
    ensures BestAfter(best, totals) >= best
    ensures forall i :: 0 <= i < |totals| ==> BestAfter(best, totals) >= totals[i]
    ensures BestAfter(best, totals) == best || BestAfter(best, totals) in totals
  {
    if totals != [] {
      var n := |totals| - 1;
      BestAfterBounds(best, totals[..n]);
      assert forall i :: 0 <= i < n ==> totals[..n][i] == totals[i];
    }
  }

  /** Further submissions never lower the best score. */
  lemma {:induction false} BestNeverDecreases(best: int, totals: seq<int>, later: seq<int>)
    ensures BestAfter(best, totals) <= BestAfter(best, totals + later)
    decreases |later|
  {
    if later == [] {
      assert totals + later == totals;
    } else {
      var n := |later| - 1;
      assert (totals + later)[..|totals| + n] == totals + later[..n];
      BestNeverDecreases(best, totals, later[..n]);
    }
  }
}
