/**
 * Test discovery (`get_tests`): list the test directory, keep the regular
 * files whose joined path does not end in the record extension and, when a
 * test extension is configured, does end in it; then sort the paths.
 */
module Discovery {
  import opened Wrappers
  import opened Strings
  import opened Paths

  /** One name from `os.listdir`, with whether `os.path.isfile` holds of its joined path. */
  datatype Entry = Entry(name: string, isFile: bool)

  /**
   * The test directory as the file system shows it: `None` when the path is
   * not an existing directory, otherwise its entries in listing order.
   */
  type Listing = Option<seq<Entry>>

  /** Whether the entry's joined path survives both list comprehensions. */
  predicate Selected(dir: string, e: Entry, recordExt: string, testExt: Option<string>) {
    var fp := Join(dir, e.name);
    e.isFile && !EndsWith(fp, recordExt) && (testExt.Some? ==> EndsWith(fp, testExt.value))
  }

  /** The first comprehension: regular files not ending in the record extension. */
  function KeepFiles(dir: string, entries: seq<Entry>, recordExt: string): (r: seq<string>)
    ensures |r| <= |entries|
    ensures forall fp :: fp in r ==> !EndsWith(fp, recordExt)
  {
    if entries == [] then []
    else
      var fp := Join(dir, entries[0].name);
      (if entries[0].isFile && !EndsWith(fp, recordExt) then [fp] else [])
        + KeepFiles(dir, entries[1..], recordExt)
  }

  /** The second comprehension: paths ending in the test extension. */
  function KeepExt(paths: seq<string>, testExt: string): (r: seq<string>)
    ensures |r| <= |paths|
    ensures forall fp :: fp in r ==> fp in paths && EndsWith(fp, testExt)
  {
    if paths == [] then []
    else (if EndsWith(paths[0], testExt) then [paths[0]] else []) + KeepExt(paths[1..], testExt)
  }

  /** The list `matches` just before it is sorted. */
  function Matches(dir: string, entries: seq<Entry>, recordExt: string, testExt: Option<string>): (r: seq<string>)
    ensures |r| <= |entries|
    ensures forall fp :: fp in r ==> !EndsWith(fp, recordExt) && (testExt.Some? ==> EndsWith(fp, testExt.value))
  {
    var files := KeepFiles(dir, entries, recordExt);
    if testExt.Some? then KeepExt(files, testExt.value) else files
  }

  lemma {:induction false} KeepFilesMembers(dir: string, entries: seq<Entry>, recordExt: string, fp: string)
    ensures fp in KeepFiles(dir, entries, recordExt) <==>
      exists i :: 0 <= i < |entries| && entries[i].isFile && fp == Join(dir, entries[i].name) && !EndsWith(fp, recordExt)
  {
    if entries != [] {
      KeepFilesMembers(dir, entries[1..], recordExt, fp);
      if exists i :: 0 <= i < |entries| && entries[i].isFile && fp == Join(dir, entries[i].name) && !EndsWith(fp, recordExt) {
        var i :| 0 <= i < |entries| && entries[i].isFile && fp == Join(dir, entries[i].name) && !EndsWith(fp, recordExt);
        if i > 0 { assert entries[1..][i - 1] == entries[i]; }
      }
    }
  }

  lemma {:induction false} KeepExtMembers(paths: seq<string>, testExt: string, fp: string)
    ensures fp in KeepExt(paths, testExt) <==> fp in paths && EndsWith(fp, testExt)
  {
    if paths != [] {
      KeepExtMembers(paths[1..], testExt, fp);
      assert paths == [paths[0]] + paths[1..];
    }
  }

  /** A path is a match exactly when some listed entry is selected and joins to it. */
  lemma MatchesMembers(dir: string, entries: seq<Entry>, recordExt: string, testExt: Option<string>, fp: string)
    ensures fp in Matches(dir, entries, recordExt, testExt) <==>
      exists i :: 0 <= i < |entries| && Selected(dir, entries[i], recordExt, testExt) && fp == Join(dir, entries[i].name)
  {
    KeepFilesMembers(dir, entries, recordExt, fp);
    if testExt.Some? {
      KeepExtMembers(KeepFiles(dir, entries, recordExt), testExt.value, fp);
    }
  }

  /** Ascending in Python's string order. */
  predicate Sorted(s: seq<string>) {
    forall i, j :: 0 <= i < j < |s| ==> StrLe(s[i], s[j])
  }

  /** Inserting into a sorted list: the reference definition of sorting. */
  function Insert(x: string, s: seq<string>): (r: seq<string>)
    ensures multiset(r) == multiset(s) + multiset{x}
  {
    if s == [] then [x]
    else if StrLe(x, s[0]) then [x] + s
    else
      assert s == [s[0]] + s[1..];
      [s[0]] + Insert(x, s[1..])
  }

  /** Insertion sort on values, the specification of `matches.sort()`. */
  function SortStrings(s: seq<string>): (r: seq<string>)
    ensures multiset(r) == multiset(s)
  {
    if s == [] then []
    else
      assert s == [s[0]] + s[1..];
      Insert(s[0], SortStrings(s[1..]))
  }

  lemma {:induction false} InsertSorted(x: string, s: seq<string>)
    requires Sorted(s)
    ensures Sorted(Insert(x, s))
  {
    if s == [] {
    } else if StrLe(x, s[0]) {
      forall j | 0 <= j < |s| ensures StrLe(x, s[j]) {
        if j > 0 { StrLeTransitive(x, s[0], s[j]); }
      }
    } else {
      StrLeTotal(x, s[0]);
      var tail := Insert(x, s[1..]);
      InsertSorted(x, s[1..]);
      forall y | y in tail ensures StrLe(s[0], y) {
        assert y in multiset(tail);
        if y != x {
          assert y in multiset(s[1..]);
        }
      }
      var r := [s[0]] + tail;
      forall i, j | 0 <= i < j < |r| ensures StrLe(r[i], r[j]) {
        if i == 0 { assert r[j] in tail; }
      }
    }
  }

  lemma {:induction false} SortStringsSorted(s: seq<string>)
    ensures Sorted(SortStrings(s))
  {
    if s != [] {
      SortStringsSorted(s[1..]);
      InsertSorted(s[0], SortStrings(s[1..]));
    }
  }

  /** The head of a sorted list orders at or before every element of the list. */
  lemma SortedHead(s: seq<string>, x: string)
    requires Sorted(s) && x in multiset(s)
    ensures s != [] && StrLe(s[0], x)
  {
    var k :| 0 <= k < |s| && s[k] == x;
    if k > 0 { assert StrLe(s[0], s[k]); } else { StrLeReflexive(s[0]); }
  }

  /** Dropping the head of a list removes one occurrence of it from the multiset. */
  lemma MultisetTail(s: seq<string>)
    requires s != []
    ensures multiset(s[1..]) == multiset(s) - multiset{s[0]}
  {
    assert s == [s[0]] + s[1..];
  }

  /** Two sorted lists holding the same strings are the same list. */
  lemma {:induction false} SortedUnique(a: seq<string>, b: seq<string>)
    requires Sorted(a) && Sorted(b) && multiset(a) == multiset(b)
    ensures a == b
  {
    if a != [] {
      assert a[0] in multiset(b);
      SortedHead(b, a[0]);
      SortedHead(a, b[0]);
      StrLeAntisymmetric(a[0], b[0]);
      MultisetTail(a);
      MultisetTail(b);
      SortedUnique(a[1..], b[1..]);
      assert a == [a[0]] + a[1..] && b == [b[0]] + b[1..];
    } else {
      assert |b| == |multiset(b)| == 0;
    }
  }

  /**
   * `matches.sort()`: sorts the list in place (by insertion; Python's own
   * algorithm is not modelled, only its result).
   */
  method SortInPlace(a: array<string>)
    modifies a
    ensures Sorted(a[..])
    ensures multiset(a[..]) == old(multiset(a[..]))
  {
    var i := 0;
    while i < a.Length
      invariant 0 <= i <= a.Length
      invariant forall p, q :: 0 <= p < q < i ==> StrLe(a[p], a[q])
      invariant multiset(a[..]) == old(multiset(a[..]))
    {
      var j := i;
      while 0 < j && !StrLe(a[j - 1], a[j])
        invariant 0 <= j <= i < a.Length
        invariant forall p, q :: 0 <= p < q <= i && p != j && q != j ==> StrLe(a[p], a[q])
        invariant forall q :: j < q <= i ==> StrLe(a[j], a[q])
        invariant multiset(a[..]) == old(multiset(a[..]))
      {
        StrLeTotal(a[j - 1], a[j]);
        a[j - 1], a[j] := a[j], a[j - 1];
        j := j - 1;
      }
      forall p, q | 0 <= p < q <= i ensures StrLe(a[p], a[q]) {
        if q == j && p < j - 1 {
          StrLeTransitive(a[p], a[j - 1], a[j]);
        }
      }
      i := i + 1;
    }
  }

  /** What `get_tests` returns, as a value. */
  function Discover(dir: string, listing: Listing, recordExt: string, testExt: Option<string>): (r: Option<seq<string>>)
    ensures r.None? <==> listing.None?
    ensures r.Some? ==>
      Sorted(r.value) && multiset(r.value) == multiset(Matches(dir, listing.value, recordExt, testExt))
  {
    match listing
    case None => None
    case Some(entries) =>
      var m := Matches(dir, entries, recordExt, testExt);
      SortStringsSorted(m);
      Some(SortStrings(m))
  }

  /** `get_tests`: `None` for a path that is not a directory, otherwise the sorted matches. */
  method GetTests(dir: string, listing: Listing, recordExt: string, testExt: Option<string>)
    returns (tests: Option<seq<string>>)
    ensures tests.None? <==> listing.None?
    ensures tests.Some? ==>
      Sorted(tests.value) && multiset(tests.value) == multiset(Matches(dir, listing.value, recordExt, testExt))
    ensures tests == Discover(dir, listing, recordExt, testExt)
  {
    if listing.None? {
      return None;
    }
    var matches := Matches(dir, listing.value, recordExt, testExt);
    var a := new string[|matches|](k requires 0 <= k < |matches| => matches[k]);
    assert a[..] == matches;
    SortInPlace(a);
    SortStringsSorted(matches);
    SortedUnique(a[..], SortStrings(matches));
    tests := Some(a[..]);
  }

  /**
   * Discovery yields `None` exactly for a test path that is not a directory;
   * otherwise a sorted list holding exactly the selected entries' paths.
   */
  lemma DiscoverCharacterized(dir: string, listing: Listing, recordExt: string, testExt: Option<string>, fp: string)
    ensures Discover(dir, listing, recordExt, testExt).None? <==> listing.None?
    ensures listing.Some? ==> Sorted(Discover(dir, listing, recordExt, testExt).value)
    ensures listing.Some? ==>
      (fp in Discover(dir, listing, recordExt, testExt).value <==>
        exists i :: 0 <= i < |listing.value| && Selected(dir, listing.value[i], recordExt, testExt)
          && fp == Join(dir, listing.value[i].name))
  {
    if listing.Some? {
      var m := Matches(dir, listing.value, recordExt, testExt);
      SortStringsSorted(m);
      MatchesMembers(dir, listing.value, recordExt, testExt, fp);
      assert fp in SortStrings(m) <==> fp in multiset(SortStrings(m));
      assert fp in m <==> fp in multiset(m);
    }
  }

  /** No record file is ever taken for a test, whatever the test extension. */
  lemma RecordsNeverDiscovered(dir: string, listing: Listing, recordExt: string, testExt: Option<string>)
    requires listing.Some?
    ensures forall p :: RecordPathOf(p, recordExt) !in Discover(dir, listing, recordExt, testExt).value
  {
    var m := Matches(dir, listing.value, recordExt, testExt);
    forall p ensures RecordPathOf(p, recordExt) !in SortStrings(m) {
      var rp := RecordPathOf(p, recordExt);
      assert rp in SortStrings(m) <==> rp in multiset(m);
      assert rp !in KeepFiles(dir, listing.value, recordExt);
    }
  }

  /**
   * The record filter is a plain suffix test on the joined path: with record
   * extension "rec", a directory holding only the regular file "x.prec" has
   * no tests, although no test's record is named "x.prec".
   */
  lemma SuffixFilterExample(p: string)
    ensures Discover("t", Some([Entry("x.prec", true)]), "rec", None) == Some([])
    ensures RecordPathOf(p, "rec") != "t/x.prec"
  {
    var entries := [Entry("x.prec", true)];
    assert Join("t", "x.prec") == "t/x.prec" by {
      assert "t"[0] == 't' && "x.prec"[0] == 'x';
    }
    EndsWithAppend("t/x.p", "rec");
    assert KeepFiles("t", entries, "rec") == [] + KeepFiles("t", [], "rec");
    NoRecordNamedPrec(p);
  }

  /** Every record path for extension "rec" has '.' four places from its end. */
  lemma NoRecordNamedPrec(p: string)
    ensures RecordPathOf(p, "rec") != "t/x.prec"
  {
    assert !StartsWith("rec", ".") by { assert "rec"[0] == 'r'; }
    var r := RecordPathOf(p, "rec");
    assert r[|r| - 4] == '.' by {
      var root := SplitExt(p).0;
      assert r == root + ".rec";
    }
    var x := "t/x.prec";
    assert x[|x| - 4] == 'p';
  }
}
