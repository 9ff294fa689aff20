/**
 * The record store and the per-test result: a record is the raw bytes a
 * test's program printed on stdout, kept in a sibling file.
 */
module Records {
  import opened Wrappers

  newtype byte = b: int | 0 <= b < 256
  type Bytes = seq<byte>

  /** The `TestResult` dataclass. */
  datatype TestResult = TestResult(testFilePath: string, expectedOutput: Bytes, actualOutput: Bytes)
  {
    /** `TestResult.passed`: byte-for-byte equality, no normalisation. */
    predicate Passed()
      ensures Passed() <==>
        |expectedOutput| == |actualOutput| && forall i :: 0 <= i < |expectedOutput| ==> expectedOutput[i] == actualOutput[i]
    {
      expectedOutput == actualOutput
    }
  }

  /**
   * A result passes exactly when both outputs are equal, so a passing result
   * fails once its actual output is replaced by any other bytes.
   */
  lemma PassedExactly(r: TestResult, other: Bytes)
    ensures r.Passed() <==> r.expectedOutput == r.actualOutput
    ensures r.Passed() && other != r.actualOutput ==> !r.(actualOutput := other).Passed()
  {
  }

  /**
   * The regular files that can hold records, by path; a path that is absent
   * (or is not a regular file) has no record.
   */
  class RecordStore {
    var records: map<string, Bytes>

    constructor (records: map<string, Bytes>)
      ensures this.records == records
    {
      this.records := records;
    }

    /** `read_record_of`: the file's bytes, or `None` when it is not a regular file. */
    function ReadRecordOf(path: string): (r: Option<Bytes>)
      reads this
      ensures r.Some? <==> path in records
      ensures r.Some? ==> r.value == records[path]
    {
      if path in records then Some(records[path]) else None
    }

    /** `write_record_of`: create or truncate the file and write the bytes. */
    method WriteRecordOf(path: string, output: Bytes)
      modifies this
      ensures records == old(records)[path := output]
      ensures ReadRecordOf(path) == Some(output)
    {
      records := records[path := output];
    }
  }
}
