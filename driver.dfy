/**
 * `do_tests`: the configuration check, discovery, and either the update or
 * the run-and-report path, with the process exit code it ends in.
 */
module Driver {
  import opened Wrappers
  import opened Paths
  import opened Discovery
  import opened Records
  import opened Runner

  /** The parsed command line: test directory, `-u`, `-e` and `-r` (default "rec"). */
  datatype Settings = Settings(testDir: string, update: bool, testExt: Option<string>, recordExt: string)

  /** `argparse`'s `error()` ends the process with status 2. */
  const ConfigErrorExit := 2

  /** Exit code for a test directory that is not a directory. */
  const PathErrorExit := 1

  /** The raw string comparison `record_ext == test_ext`; `None` never equals a string. */
  predicate ExtensionsCollide(settings: Settings)
    ensures ExtensionsCollide(settings) ==> forall dir, e :: !Selected(dir, e, settings.recordExt, settings.testExt)
  {
    settings.testExt == Some(settings.recordExt)
  }

  /** A non-update run succeeds exactly when every test with a record reproduces it. */
  ghost predicate AllRecordedPass(tests: seq<string>, records: map<string, Bytes>, behaviour: string -> Bytes, derive: string -> string) {
    forall t :: t in WithRecords(tests, records, derive) ==> derive(t) in records && records[derive(t)] == behaviour(t)
  }

  /**
   * The results of a run all pass exactly when every test that was run
   * reproduces its record, which is what the exit code reports.
   */
  lemma RunVerdict(results: seq<TestResult>, tests: seq<string>, records: map<string, Bytes>, behaviour: string -> Bytes, derive: string -> string)
    requires |results| == |WithRecords(tests, records, derive)|
    requires forall k :: 0 <= k < |results| ==>
      results[k] == ResultFor(WithRecords(tests, records, derive)[k], records, behaviour, derive)
    ensures (forall k :: 0 <= k < |results| ==> results[k].Passed()) <==> AllRecordedPass(tests, records, behaviour, derive)
  {
    var w := WithRecords(tests, records, derive);
    forall k | 0 <= k < |results|
      ensures results[k].Passed() <==> records[derive(w[k])] == behaviour(w[k])
    {
      assert w[k] in w;
      ResultPasses(w[k], records, behaviour, derive);
    }
    forall t | t in w ensures exists k :: 0 <= k < |w| && w[k] == t {
    }
  }

  /**
   * `do_tests` after argument parsing. The listing is what the file system
   * shows at `settings.testDir`; the store holds the record files.
   */
  method DoTests(settings: Settings, listing: Listing, program: Program, store: RecordStore)
    returns (exitCode: int)
    modifies program, store
    ensures ExtensionsCollide(settings) ==>
      exitCode == ConfigErrorExit && store.records == old(store.records) && program.invocations == old(program.invocations)
    ensures !ExtensionsCollide(settings) && listing.None? ==>
      exitCode == PathErrorExit && store.records == old(store.records) && program.invocations == old(program.invocations)
    ensures !ExtensionsCollide(settings) && listing.Some? && settings.update ==>
      var tests := Discover(settings.testDir, listing, settings.recordExt, settings.testExt).value;
      && exitCode == 0
      && store.records == AfterUpdate(old(store.records), program.behaviour, tests, RecordPath(settings.recordExt))
      && program.invocations == old(program.invocations) + tests
    ensures !ExtensionsCollide(settings) && listing.Some? && !settings.update ==>
      var tests := Discover(settings.testDir, listing, settings.recordExt, settings.testExt).value;
      && store.records == old(store.records)
      && program.invocations == old(program.invocations) + WithRecords(tests, store.records, RecordPath(settings.recordExt))
      && exitCode == (if AllRecordedPass(tests, store.records, program.behaviour, RecordPath(settings.recordExt)) then 0 else 1)
  {
    if ExtensionsCollide(settings) {
      return ConfigErrorExit;
    }
    exitCode := 0;
    var testsToRun := GetTests(settings.testDir, listing, settings.recordExt, settings.testExt);
    ghost var records := store.records;
    if testsToRun.Some? {
      if settings.update {
        UpdateTests(program, testsToRun.value, store, RecordPath(settings.recordExt));
      } else {
        var testResults := RunTests(program, testsToRun.value, store, RecordPath(settings.recordExt));
        var testsPassed;
        testsPassed, exitCode := DisplayResults(testResults);
        assert store.records == records;
        RunVerdict(testResults, testsToRun.value, records, program.behaviour, RecordPath(settings.recordExt));
      }
    } else {
      exitCode := PathErrorExit;
    }
  }
}
