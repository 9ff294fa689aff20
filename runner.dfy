/**
 * The run loop (`run_tests`), the update loop (`update_tests`) and the
 * tally (`display_results`), over an abstract program under test and the
 * record store.
 */
module Runner {
  import opened Paths
  import opened Records

  /**
   * The program under test. Running it on a test path yields the bytes it
   * writes to stdout, a fixed function of the path; every run is logged in
   * `invocations`, which exists only for the proof.
   */
  class Program {
    const behaviour: string -> Bytes
    ghost var invocations: seq<string>

    constructor (behaviour: string -> Bytes)
      ensures this.behaviour == behaviour && invocations == []
    {
      this.behaviour := behaviour;
      invocations := [];
    }

    /** `run_and_capture`: run the program on one test file and keep its stdout. */
    method RunAndCapture(testPath: string) returns (stdout: Bytes)
      modifies this`invocations
      ensures stdout == behaviour(testPath)
      ensures invocations == old(invocations) + [testPath]
    {
      stdout := behaviour(testPath);
      invocations := invocations + [testPath];
    }
  }

  /**
   * `record_path_of` with the record extension fixed: the derivation both
   * loops use. The specification functions and lemmas below hold for any
   * derivation `derive`, so they are stated over a function value.
   */
  function RecordPath(ext: string): string -> string
  {
    t => RecordPathOf(t, ext)
  }

  // ---------------------------------------------------------------------
  // Running tests

  /** The tests, in order, whose derived record path holds a record. */
  function WithRecords(tests: seq<string>, records: map<string, Bytes>, derive: string -> string): (r: seq<string>)
    ensures |r| <= |tests|
    ensures forall t :: t in r ==> t in tests && derive(t) in records
    decreases |tests|
  {
    if tests == [] then []
    else
      var n := |tests| - 1;
      WithRecords(tests[..n], records, derive) + (if derive(tests[n]) in records then [tests[n]] else [])
  }

  /** Extending the tests by one extends the run list by that test exactly when it has a record. */
  lemma WithRecordsStep(tests: seq<string>, i: nat, records: map<string, Bytes>, derive: string -> string)
    requires i < |tests|
    ensures WithRecords(tests[..i + 1], records, derive)
      == WithRecords(tests[..i], records, derive) + (if derive(tests[i]) in records then [tests[i]] else [])
  {
    assert tests[..i + 1][..i] == tests[..i];
  }

  /** The positions in `tests` of the tests that have a record, in ascending order. */
  function RecordedIndices(tests: seq<string>, records: map<string, Bytes>, derive: string -> string): seq<nat>
    decreases |tests|
  {
    if tests == [] then []
    else
      var n := |tests| - 1;
      RecordedIndices(tests[..n], records, derive) + (if derive(tests[n]) in records then [n] else [])
  }

  /** The recorded positions are positions of `tests`, in strictly ascending order. */
  lemma {:induction false} RecordedIndicesAscending(tests: seq<string>, records: map<string, Bytes>, derive: string -> string)
    ensures forall k :: 0 <= k < |RecordedIndices(tests, records, derive)| ==>
      RecordedIndices(tests, records, derive)[k] < |tests|
    ensures forall k, l :: 0 <= k < l < |RecordedIndices(tests, records, derive)| ==>
      RecordedIndices(tests, records, derive)[k] < RecordedIndices(tests, records, derive)[l]
    decreases |tests|
  {
    if tests != [] {
      RecordedIndicesAscending(tests[..|tests| - 1], records, derive);
    }
  }

  /** A position is recorded exactly when its test has a record. */
  lemma {:induction false} RecordedIndicesMembers(tests: seq<string>, records: map<string, Bytes>, derive: string -> string)
    ensures forall i :: 0 <= i < |tests| ==> (i in RecordedIndices(tests, records, derive) <==> derive(tests[i]) in records)
    decreases |tests|
  {
    if tests != [] {
      var n := |tests| - 1;
      var init := tests[..n];
      RecordedIndicesMembers(init, records, derive);
      RecordedIndicesAscending(init, records, derive);
      assert forall i :: 0 <= i < n ==> init[i] == tests[i];
    }
  }

  /** The k-th test that is run is the test at the k-th recorded position. */
  lemma {:induction false} RecordedIndicesSelect(tests: seq<string>, records: map<string, Bytes>, derive: string -> string)
    ensures |RecordedIndices(tests, records, derive)| == |WithRecords(tests, records, derive)|
    ensures forall k :: 0 <= k < |RecordedIndices(tests, records, derive)| ==>
      && RecordedIndices(tests, records, derive)[k] < |tests|
      && WithRecords(tests, records, derive)[k] == tests[RecordedIndices(tests, records, derive)[k]]
    decreases |tests|
  {
    if tests != [] {
      var n := |tests| - 1;
      RecordedIndicesSelect(tests[..n], records, derive);
      RecordedIndicesAscending(tests[..n], records, derive);
    }
  }

  /**
   * `run_tests` keeps the order of its input: its k-th result is for the
   * test at the k-th ascending position holding a record, and every test
   * with a record gets exactly one such position.
   */
  lemma {:induction false} RunOrder(tests: seq<string>, records: map<string, Bytes>, derive: string -> string)
    ensures var w := WithRecords(tests, records, derive);
      var idx := RecordedIndices(tests, records, derive);
      && |idx| == |w|
      && (forall k :: 0 <= k < |idx| ==> idx[k] < |tests| && w[k] == tests[idx[k]])
      && (forall k, l :: 0 <= k < l < |idx| ==> idx[k] < idx[l])
      && (forall i :: 0 <= i < |tests| ==> (i in idx <==> derive(tests[i]) in records))
  {
    RecordedIndicesSelect(tests, records, derive);
    RecordedIndicesAscending(tests, records, derive);
    RecordedIndicesMembers(tests, records, derive);
  }

  /** The result `run_tests` builds for a test whose record exists. */
  function ResultFor(t: string, records: map<string, Bytes>, behaviour: string -> Bytes, derive: string -> string): TestResult
    requires derive(t) in records
  {
    TestResult(t, records[derive(t)], behaviour(t))
  }

  /**
   * `run_tests`: for each test in order, read its record; skip the test
   * without running the program when there is none, otherwise run it and
   * append the result.
   */
  method RunTests(program: Program, tests: seq<string>, store: RecordStore, derive: string -> string)
    returns (results: seq<TestResult>)
    modifies program
    ensures program.invocations == old(program.invocations) + WithRecords(tests, store.records, derive)
    ensures |results| == |WithRecords(tests, store.records, derive)|
    ensures forall k :: 0 <= k < |results| ==>
      results[k] == ResultFor(WithRecords(tests, store.records, derive)[k], store.records, program.behaviour, derive)
  {
    ghost var records := store.records;
    ghost var run: seq<string> := [];
    results := [];
    for i := 0 to |tests|
      invariant run == WithRecords(tests[..i], records, derive)
      invariant program.invocations == old(program.invocations) + run
      invariant |results| == |run|
      invariant forall k :: 0 <= k < |run| ==> derive(run[k]) in records
      invariant forall k :: 0 <= k < |results| ==> results[k] == ResultFor(run[k], records, program.behaviour, derive)
    {
      var testPath := tests[i];
      var recordPath := derive(testPath);
      var expected := store.ReadRecordOf(recordPath);
      WithRecordsStep(tests, i, records, derive);
      if expected.Some? {
        var actual := program.RunAndCapture(testPath);
        results := results + [TestResult(testPath, expected.value, actual)];
        run := run + [testPath];
      }
    }
    assert tests[..|tests|] == tests;
  }


  /** A test's result passes exactly when the program reproduces its record. */
  lemma ResultPasses(t: string, records: map<string, Bytes>, behaviour: string -> Bytes, derive: string -> string)
    requires derive(t) in records
    ensures ResultFor(t, records, behaviour, derive).Passed() <==> behaviour(t) == records[derive(t)]
  {
  }

  // ---------------------------------------------------------------------
  // Updating records

  /** The record store after `update_tests` has written every test's output in order. */
  function AfterUpdate(records: map<string, Bytes>, behaviour: string -> Bytes, tests: seq<string>, derive: string -> string)
    : (r: map<string, Bytes>)
    ensures records.Keys <= r.Keys
    ensures forall t :: t in tests ==> derive(t) in r
    decreases |tests|
  {
    if tests == [] then records
    else
      var n := |tests| - 1;
      assert tests == tests[..n] + [tests[n]];
      AfterUpdate(records, behaviour, tests[..n], derive)[derive(tests[n]) := behaviour(tests[n])]
  }

  /**
   * `update_tests`: run the program on every test, in order, and overwrite
   * the test's record with the output.
   */
  method UpdateTests(program: Program, tests: seq<string>, store: RecordStore, derive: string -> string)
    modifies program, store
    ensures store.records == AfterUpdate(old(store.records), program.behaviour, tests, derive)
    ensures program.invocations == old(program.invocations) + tests
  {
    for i := 0 to |tests|
      invariant store.records == AfterUpdate(old(store.records), program.behaviour, tests[..i], derive)
      invariant program.invocations == old(program.invocations) + tests[..i]
    {
      var testPath := tests[i];
      var actual := program.RunAndCapture(testPath);
      var recordPath := derive(testPath);
      store.WriteRecordOf(recordPath, actual);
      assert tests[..i + 1][..i] == tests[..i];
    }
    assert tests[..|tests|] == tests;
  }

  /** The update adds one record per distinct derived path and keeps every other record. */
  lemma {:induction false} AfterUpdateKeys(records: map<string, Bytes>, behaviour: string -> Bytes, tests: seq<string>, derive: string -> string)
    ensures AfterUpdate(records, behaviour, tests, derive).Keys == records.Keys + set t | t in tests :: derive(t)
    decreases |tests|
  {
    if tests != [] {
      var n := |tests| - 1;
      AfterUpdateKeys(records, behaviour, tests[..n], derive);
      assert tests == tests[..n] + [tests[n]];
      assert (set t | t in tests :: derive(t))
        == (set t | t in tests[..n] :: derive(t)) + {derive(tests[n])};
    }
  }

  /** A path no test derives keeps its record, or its absence. */
  lemma {:induction false} AfterUpdateUntouched(records: map<string, Bytes>, behaviour: string -> Bytes, tests: seq<string>, derive: string -> string, path: string)
    requires forall t :: t in tests ==> derive(t) != path
    ensures var after := AfterUpdate(records, behaviour, tests, derive);
      (path in after <==> path in records) && (path in records ==> after[path] == records[path])
    decreases |tests|
  {
    if tests != [] {
      var n := |tests| - 1;
      assert forall t :: t in tests[..n] ==> t in tests;
      AfterUpdateUntouched(records, behaviour, tests[..n], derive, path);
    }
  }

  /** A record path holds the output of the last test, in order, that derives it. */
  lemma {:induction false} AfterUpdateLastWriter(records: map<string, Bytes>, behaviour: string -> Bytes, tests: seq<string>, derive: string -> string, j: nat)
    requires j < |tests|
    requires forall l :: j < l < |tests| ==> derive(tests[l]) != derive(tests[j])
    ensures var after := AfterUpdate(records, behaviour, tests, derive);
      derive(tests[j]) in after && after[derive(tests[j])] == behaviour(tests[j])
    decreases |tests|
  {
    var n := |tests| - 1;
    if j < n {
      AfterUpdateLastWriter(records, behaviour, tests[..n], derive, j);
    }
  }

  /** Every test's record path ends up holding the output of some test at or after it that derives the same path. */
  lemma {:induction false} AfterUpdateWrittenByLater(records: map<string, Bytes>, behaviour: string -> Bytes, tests: seq<string>, derive: string -> string, i: nat)
    requires i < |tests|
    ensures var after := AfterUpdate(records, behaviour, tests, derive);
      var path := derive(tests[i]);
      path in after && exists j :: i <= j < |tests| && derive(tests[j]) == path && after[path] == behaviour(tests[j])
    decreases |tests|
  {
    var n := |tests| - 1;
    var path := derive(tests[i]);
    var prefix := AfterUpdate(records, behaviour, tests[..n], derive);
    var after := prefix[derive(tests[n]) := behaviour(tests[n])];
    assert AfterUpdate(records, behaviour, tests, derive) == after;
    if derive(tests[n]) != path {
      AfterUpdateWrittenByLater(records, behaviour, tests[..n], derive, i);
      var j :| i <= j < n && derive(tests[..n][j]) == path && prefix[path] == behaviour(tests[..n][j]);
      assert tests[..n][j] == tests[j];
      assert after[path] == behaviour(tests[j]);
    } else {
      assert after[path] == behaviour(tests[n]);
    }
  }

  /** What the update writes to a derived path does not depend on the store it started from. */
  lemma {:induction false} AfterUpdateForgetsStart(m1: map<string, Bytes>, m2: map<string, Bytes>, behaviour: string -> Bytes, tests: seq<string>, derive: string -> string, path: string)
    requires exists t :: t in tests && derive(t) == path
    ensures var a1 := AfterUpdate(m1, behaviour, tests, derive);
      var a2 := AfterUpdate(m2, behaviour, tests, derive);
      path in a1 && path in a2 && a1[path] == a2[path]
    decreases |tests|
  {
    var n := |tests| - 1;
    if derive(tests[n]) != path {
      var t :| t in tests && derive(t) == path;
      assert tests == tests[..n] + [tests[n]];
      assert t in tests[..n];
      AfterUpdateForgetsStart(m1, m2, behaviour, tests[..n], derive, path);
    }
  }

  /** Updating twice leaves the same records as updating once. */
  lemma UpdateIdempotent(records: map<string, Bytes>, behaviour: string -> Bytes, tests: seq<string>, derive: string -> string)
    ensures var once := AfterUpdate(records, behaviour, tests, derive);
      AfterUpdate(once, behaviour, tests, derive) == once
  {
    var once := AfterUpdate(records, behaviour, tests, derive);
    var twice := AfterUpdate(once, behaviour, tests, derive);
    AfterUpdateKeys(records, behaviour, tests, derive);
    AfterUpdateKeys(once, behaviour, tests, derive);
    forall path | path in twice ensures path in once && twice[path] == once[path] {
      if exists t :: t in tests && derive(t) == path {
        AfterUpdateForgetsStart(once, records, behaviour, tests, derive, path);
      } else {
        AfterUpdateUntouched(once, behaviour, tests, derive, path);
      }
    }
  }

  lemma {:induction false} WithRecordsAll(tests: seq<string>, records: map<string, Bytes>, derive: string -> string)
    requires forall i :: 0 <= i < |tests| ==> derive(tests[i]) in records
    ensures WithRecords(tests, records, derive) == tests
    decreases |tests|
  {
    if tests != [] {
      var n := |tests| - 1;
      var init := tests[..n];
      assert forall i :: 0 <= i < |init| ==> init[i] == tests[i];
      WithRecordsAll(init, records, derive);
      assert derive(tests[n]) in records;
      assert tests == init + [tests[n]];
    }
  }

  /**
   * After an update, a run skips nothing, and every test passes as long as
   * tests that share a record path also share their output.
   */
  lemma UpdateThenRun(records: map<string, Bytes>, behaviour: string -> Bytes, tests: seq<string>, derive: string -> string)
    requires forall i, j ::
      0 <= i < |tests| && 0 <= j < |tests| && derive(tests[i]) == derive(tests[j]) ==>
        behaviour(tests[i]) == behaviour(tests[j])
    ensures var after := AfterUpdate(records, behaviour, tests, derive);
      && WithRecords(tests, after, derive) == tests
      && forall k :: 0 <= k < |tests| ==> ResultFor(tests[k], after, behaviour, derive).Passed()
  {
    var after := AfterUpdate(records, behaviour, tests, derive);
    forall i | 0 <= i < |tests|
      ensures derive(tests[i]) in after && after[derive(tests[i])] == behaviour(tests[i])
    {
      AfterUpdateWrittenByLater(records, behaviour, tests, derive, i);
    }
    WithRecordsAll(tests, after, derive);
  }

  /**
   * Two tests that differ only in their extension share one record: the
   * update keeps the output of the later one, so a run afterwards fails the
   * earlier test whenever the two outputs differ.
   */
  lemma SharedRecordExample(behaviour: string -> Bytes)
    requires behaviour("t/a.in") != behaviour("t/a.txt")
    ensures RecordPathOf("t/a.in", "rec") == RecordPathOf("t/a.txt", "rec") == "t/a.rec"
    ensures var after := AfterUpdate(map[], behaviour, ["t/a.in", "t/a.txt"], RecordPath("rec"));
      && after == map["t/a.rec" := behaviour("t/a.txt")]
      && !ResultFor("t/a.in", after, behaviour, RecordPath("rec")).Passed()
  {
    SharedRecordPath();
    var derive := RecordPath("rec");
    assert derive("t/a.in") == derive("t/a.txt") == "t/a.rec";
    var tests := ["t/a.in", "t/a.txt"];
    assert tests[..1] == ["t/a.in"] && tests[..1][..0] == [];
    var first := AfterUpdate(map[], behaviour, tests[..1], derive);
    assert first == AfterUpdate(map[], behaviour, [], derive)["t/a.rec" := behaviour("t/a.in")];
    assert AfterUpdate(map[], behaviour, tests, derive) == first["t/a.rec" := behaviour("t/a.txt")];
  }

  /** "t/a.in" and "t/a.txt" both have the record "t/a.rec". */
  lemma SharedRecordPath()
    ensures RecordPathOf("t/a.in", "rec") == "t/a.rec"
    ensures RecordPathOf("t/a.txt", "rec") == "t/a.rec"
  {
    var p, q := "t/a.in", "t/a.txt";
    assert p[1] == '/' && p[3] == '.' && p[2] != '.';
    assert RFind(p, '/') == 1 && RFind(p, '.') == 3 && HasStem(p, 3);
    assert q[1] == '/' && q[3] == '.' && q[2] != '.';
    assert RFind(q, '/') == 1 && RFind(q, '.') == 3 && HasStem(q, 3);
    assert BareExtension("rec") == "rec" by { assert "rec"[0] == 'r'; }
  }

  // ---------------------------------------------------------------------
  // Reporting

  /** The number of passing results. */
  function CountPassed(results: seq<TestResult>): (n: nat)
    ensures n <= |results|
    decreases |results|
  {
    if results == [] then 0
    else
      var n := |results| - 1;
      CountPassed(results[..n]) + (if results[n].Passed() then 1 else 0)
  }

  /** All results pass exactly when every one of them is counted. */
  lemma {:induction false} CountPassedAll(results: seq<TestResult>)
    ensures CountPassed(results) == |results| <==> forall k :: 0 <= k < |results| ==> results[k].Passed()
    decreases |results|
  {
    if results != [] {
      var n := |results| - 1;
      CountPassedAll(results[..n]);
      assert forall k :: 0 <= k < n ==> results[..n][k] == results[k];
    }
  }

  /**
   * `display_results`: count the passing results (the number printed in the
   * summary line) and return exit code 0 when all passed, 1 otherwise.
   */
  method DisplayResults(results: seq<TestResult>) returns (testsPassed: nat, exitCode: int)
    ensures testsPassed == CountPassed(results) && testsPassed <= |results|
    ensures exitCode == (if forall k :: 0 <= k < |results| ==> results[k].Passed() then 0 else 1)
  {
    testsPassed := 0;
    for i := 0 to |results|
      invariant testsPassed == CountPassed(results[..i])
    {
      assert results[..i + 1][..i] == results[..i];
      if results[i].Passed() {
        testsPassed := testsPassed + 1;
      }
    }
    assert results[..|results|] == results;
    CountPassedAll(results);
    exitCode := if testsPassed == |results| then 0 else 1;
  }
}
