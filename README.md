# testpy harness core, modelled in Dafny

`test.py` is a golden-output test runner. It lists a test directory and
keeps the regular files that are not record files (optionally only those
with a given test extension), then sorts them. For each test it derives a
sibling record path by swapping the extension for the record extension
(default `rec`). In normal mode it runs the program under test on every
test that has a record, compares the program's stdout byte for byte with
the record, prints `passed/total` and exits 0 only if every compared test
passed. A test without a record is skipped, and the program is never run
for it. In update mode (`-u`) it runs the program on every test and
overwrites each record with the output. Configuring the same test and
record extension is an error, and so is a test directory that is not a
directory.

The model has seven modules, one per component:

- `Wrappers` (wrappers.dfy): `Option`, standing for Python's `None`.
- `Strings` (strings.dfy): `str.startswith`, `str.endswith`, and Python's
  code-point order on `str`. Its lemmas prove that the order is a total
  order, which sorting relies on.
- `Paths` (paths.dfy): POSIX `os.path.join` and `os.path.splitext`,
  written out from their documented behaviour, and `record_path_of`.
- `Discovery` (discovery.dfy): `get_tests`. Its two list comprehensions are
  functions. `matches.sort()` is an in-place sort of an `array`. It is
  proved sorted and a permutation, and hence equal to a reference insertion
  sort on values.
- `Records` (records.dfy): the `TestResult` record and `passed`. The record
  files are a `RecordStore` class whose `map` field is read by
  `read_record_of` and updated in place by `write_record_of`.
- `Runner` (runner.dfy): `run_tests`, `update_tests` and `display_results`.
  Each is a loop proved against specification functions: `WithRecords`,
  `AfterUpdate` and `CountPassed`. The program under test is a `Program`
  object. Its stdout is a fixed function of the test path, and a ghost log
  records every run, so "never run without a record" is a checked
  postcondition. The loops and their specification functions take the
  record-path derivation as a function value `derive`, so their lemmas hold
  for any derivation. `do_tests` passes `RecordPath(ext)`, which is
  `record_path_of` with the configured record extension, the call that
  `run_tests` and `update_tests` make for each test.
- `Driver` (driver.dfy): `do_tests` after argument parsing. It covers the
  configuration check, discovery, and the update or run-and-report path,
  with the exit code that each one ends in.

Behaviour of the code that is easy to misread, kept as written:

- An equal test and record extension is reported through argparse's
  `error()`, which ends the process with status 2, not 1 (test.py:222-223).
- The check compares the raw strings, so `-e .rec` with the default record
  extension `rec` is not rejected (test.py:221-222). No record file can
  become a test anyway: `Discovery.RecordsNeverDiscovered` proves it.
- The record filter is a plain suffix test on the joined path
  (test.py:69). With `rec` it also drops a file such as `x.prec`, which is
  not the record of any test (`Discovery.SuffixFilterExample`).
- This version has no command templates, timeouts, recursion, stderr or
  return-code capture, "create empty" mode, or malformed-record handling. A
  record is the raw stdout bytes and a result holds two byte strings.

## Model

| member | source | states |
|---|---|---|
| `Strings.StartsWith` | test.py:86 | `s.startswith(prefix)` holds exactly when `s` is `prefix` followed by the rest of `s`, so the empty prefix starts every string |
| `Strings.EndsWith` | test.py:69-71 | `s.endswith(suffix)` holds exactly when `s` is some front part followed by `suffix`, so the empty suffix ends every string |
| `Strings.StrLe` | test.py:73 | in Python's string order, a non-empty string orders at or before another only if the other is non-empty and its first code point is not smaller |
| `Strings.StrLePrefix` | test.py:73 | a string orders at or before every string it is a prefix of |
| `Strings.StrLeReflexive` | test.py:73 | every path orders at or before itself in Python's string order |
| `Strings.StrLeTotal` | test.py:73 | any two paths are comparable in Python's string order |
| `Strings.StrLeAntisymmetric` | test.py:73 | two paths that each order at or before the other are equal |
| `Strings.StrLeTransitive` | test.py:73 | Python's string order is transitive |
| `Paths.RFind` | test.py:84 | the index returned is the last occurrence of the character, or -1 when it does not occur |
| `Paths.Join` | test.py:68 | an absolute name replaces the directory; otherwise the result starts with the directory and ends with the name, with exactly one '/' between them unless the directory is empty or already ends in '/' (its length pins this down) |
| `Paths.JoinLastComponent` | test.py:68 | joining a non-empty directory and a name without '/' makes the name the last component: the last '/' sits just before it, and what precedes the name is the directory with one trailing '/' |
| `Paths.SplitExt` | test.py:84 | the root and the extension from `splitext` put together give the path back |
| `Paths.SplitExtParts` | test.py:84 | `splitext` parts concatenate back to the path; the extension is empty or one dot followed by no dot or '/', and it is non-empty exactly when the last component has a non-dot character before its last dot |
| `Paths.BareExtension` | test.py:86 | the extension is either its bare form with one leading dot added, or already bare with no leading dot |
| `Paths.RecordPathOf` | test.py:83-86 | the record path is the `splitext` root, then '.', then the extension without its optional leading dot, so it always ends with the configured extension |
| `Paths.DottedExtensionSameRecord` | test.py:83-86 | extensions `rec` and `.rec` give the same record path for every test path |
| `Paths.RecordIsSibling` | test.py:83-86 | when the record extension has no '/', the record lies in the test's directory: same directory prefix and same last '/' |
| `Paths.RecordPathExamples` | test.py:83-86 | `tests/a.txt` gives `tests/a.rec` with either spelling of the extension; `.hidden` and a dotted directory name get `.rec` appended (one helper lemma per path: `PlainExample`, `HiddenExample`, `DottedDirectoryExample`) |
| `Discovery.KeepFiles` | test.py:68-69 | the first comprehension keeps no more paths than there are entries, and none of them ends with the record extension |
| `Discovery.KeepExt` | test.py:70-71 | the second comprehension keeps only input paths that end with the test extension |
| `Discovery.Matches` | test.py:67-71 | the unsorted matches are no more than the entries, and none ends with the record extension, and each ends with the test extension when one is given |
| `Discovery.KeepFilesMembers` | test.py:68-69 | a path survives the first comprehension exactly when some listed regular file joins to it and it does not end with the record extension |
| `Discovery.KeepExtMembers` | test.py:70-71 | a path survives the second comprehension exactly when it is an input path that ends with the test extension |
| `Discovery.MatchesMembers` | test.py:67-71 | the unsorted matches are exactly the joined paths of the selected entries |
| `Discovery.Insert` | test.py:73 | inserting adds exactly one occurrence of the element to the multiset |
| `Discovery.SortStrings` | test.py:73 | the reference sort is a permutation of its input |
| `Discovery.InsertSorted` | test.py:73 | inserting into a sorted list keeps it sorted |
| `Discovery.SortStringsSorted` | test.py:73 | the reference sort's output is sorted |
| `Discovery.SortedUnique` | test.py:73 | two sorted lists with the same elements are equal, so the sort result does not depend on the algorithm |
| `Discovery.SortInPlace` | test.py:73 | `matches.sort()` leaves the array sorted and a permutation of what it held |
| `Discovery.Discover` | test.py:66-76 | `None` exactly when the listing is `None`; otherwise a sorted list with the same elements, counted with multiplicity, as the matches |
| `Discovery.GetTests` | test.py:66-76 | `None` exactly when the test path is not a directory; otherwise the sorted permutation of the matches, equal to `Discover` |
| `Discovery.DiscoverCharacterized` | test.py:66-76 | discovery fails exactly for a non-directory; otherwise its output is sorted and contains a path exactly when a listed regular file joins to it, does not end with the record extension, and ends with the test extension when one is given |
| `Discovery.RecordsNeverDiscovered` | test.py:69 | no record path derived from any test path is ever discovered as a test |
| `Discovery.SuffixFilterExample` | test.py:69 | with extension `rec`, a lone regular file `x.prec` is dropped, though no test's record path is `t/x.prec` |
| `Discovery.NoRecordNamedPrec` | test.py:83-86 | no test path has the record path `t/x.prec` under extension `rec`, since every such record path has '.' four places from its end |
| `Records.TestResult.Passed` | test.py:21-22 | a result passes exactly when both outputs have the same length and agree byte by byte |
| `Records.PassedExactly` | test.py:21-22 | a result passes exactly when the expected and actual bytes are equal; replacing the actual bytes of a passing result by any other bytes makes it fail |
| `Records.RecordStore.ReadRecordOf` | test.py:94-99 | reading gives the record's bytes when the file exists, and `None` otherwise |
| `Records.RecordStore.WriteRecordOf` | test.py:106-108 | writing sets that one path to the bytes and leaves every other path unchanged |
| `Runner.Program.RunAndCapture` | test.py:121-123 | the captured bytes are the program's stdout for that test path, and the run is logged |
| `Runner.WithRecords` | test.py:148-160 | the tests that are run are input tests that have a record, and there are no more of them than tests |
| `Runner.WithRecordsStep` | test.py:148-160 | one more test adds itself to the run list exactly when it has a record |
| `Runner.RecordedIndicesAscending` | test.py:148-160 | the recorded positions are positions of the tests, in strictly ascending order |
| `Runner.RecordedIndicesMembers` | test.py:148-160 | a position is recorded exactly when its test has a record |
| `Runner.RecordedIndicesSelect` | test.py:148-160 | there are as many recorded positions as tests run, and the k-th test run is the test at the k-th recorded position |
| `Runner.RunOrder` | test.py:145-162 | the run order follows the input: the k-th run test is at the k-th ascending index, and every index whose test has a record appears exactly once |
| `Runner.RunTests` | test.py:145-162 | the program runs once for each test with a record, in input order, and for no other test; one result per such test, holding its path, its record's bytes and the program's output |
| `Runner.ResultPasses` | test.py:156-160 | a test's result passes exactly when the program reproduces that test's record |
| `Runner.AfterUpdate` | test.py:131-137 | the update keeps every existing record path and leaves a record at every test's derived path |
| `Runner.UpdateTests` | test.py:131-137 | the program runs on every test in order, and the store ends as every output written to its derived path in order |
| `Runner.AfterUpdateKeys` | test.py:131-137 | after an update, the store's paths are the old ones plus every test's derived record path |
| `Runner.AfterUpdateUntouched` | test.py:131-137 | a path no test derives keeps its old record, or its absence |
| `Runner.AfterUpdateLastWriter` | test.py:131-137 | a derived path holds the output of the last test, in order, that derives it |
| `Runner.AfterUpdateWrittenByLater` | test.py:131-137 | each test's record path holds the output of that test or of a later test that derives the same path |
| `Runner.AfterUpdateForgetsStart` | test.py:131-137 | what an update writes to a derived path does not depend on the store's previous contents |
| `Runner.UpdateIdempotent` | test.py:131-137 | updating twice gives the same store as updating once |
| `Runner.WithRecordsAll` | test.py:148-155 | when every test has a record, every test is run |
| `Runner.UpdateThenRun` | test.py:131-162 | after an update, a run skips no test, and every test passes when tests that share a record path also share their output |
| `Runner.SharedRecordExample` | test.py:131-137 | `a.in` and `a.txt` share `a.rec`; the update keeps `a.txt`'s output, so `a.in` fails afterwards when the outputs differ |
| `Runner.SharedRecordPath` | test.py:83-86 | `t/a.in` and `t/a.txt` both derive the record path `t/a.rec` |
| `Runner.CountPassed` | test.py:179-187 | the pass count never exceeds the number of results |
| `Runner.CountPassedAll` | test.py:192-196 | the pass count equals the number of results exactly when every result passed |
| `Runner.DisplayResults` | test.py:178-196 | the counted passes are between 0 and the number of results; the exit code is 0 when every result passed, including when there are none, and 1 otherwise |
| `Driver.ExtensionsCollide` | test.py:222-223 | when the test extension equals the record extension, no entry of any directory could be selected as a test |
| `Driver.RunVerdict` | test.py:233-234 | the run's results all pass exactly when every test that was run reproduces its record, which is the condition for exit code 0 |
| `Driver.DoTests` | test.py:202-239 | equal extensions give exit 2 before discovery, with nothing run or written; a non-directory gives exit 1, with nothing run or written; update mode runs every discovered test, writes the records and gives exit 0; otherwise it runs exactly the discovered tests that have records, writes nothing, and gives exit 0 exactly when each of them reproduces its record |

## Left out

- Argument parsing, the usage and error messages, `print_failure`, and all printing and colour codes (test.py:30-44, 170-189, 204-219). These are user interface. `DoTests` takes the parsed settings. Its exit status stands for the value handed to `sys.exit` (test.py:241-242).
- The subprocess in `run_and_capture` (test.py:121-123). The program under test is a fixed function from test path to stdout bytes. Its stderr is captured and discarded and its return code is ignored, so neither affects a result. A launch failure (a missing or non-executable program) raises and aborts the run partway through the loop, leaving the records already written in update mode in place; this is not modelled.
- `os.listdir`, `os.path.isfile`, `os.path.isdir` and file reading and writing (test.py:50-58, 68, 94-108). The directory is a listing of names with whether each is a regular file, or `None` when the path is not a directory. The record files are a map from path to bytes. Exceptions from I/O (permissions, full disks) are not modelled.
- Non-POSIX path rules (`ntpath`) are not modelled. File names that Python decodes with surrogate escapes are not modelled either, because Dafny characters exclude surrogates.
- Python's own sorting algorithm is not modelled. The model sorts by insertion. It proves only the result, which is the unique sorted permutation, and so is the same for any correct sort.
- The pass count is returned by `DisplayResults` as well as the exit code. The source prints that count in its summary line and does not return it.

