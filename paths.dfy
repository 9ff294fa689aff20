/**
 * Path arithmetic of the harness: POSIX `os.path.join`, `os.path.splitext`
 * and the derivation of a test's record path from it.
 */
module Paths {
  import opened Strings

  /** `p.rfind(c)`: the last index holding `c`, or -1 when there is none. */
  function RFind(p: string, c: char): (r: int)
    ensures -1 <= r < |p|
    ensures r >= 0 ==> p[r] == c
    ensures forall k :: r < k < |p| ==> p[k] != c
    decreases |p|
  {
    if p == [] then -1
    else if p[|p| - 1] == c then |p| - 1
    else RFind(p[..|p| - 1], c)
  }

  lemma {:induction false} RFindAppend(s: string, t: string, c: char)
    requires c !in t
    ensures RFind(s + t, c) == RFind(s, c)
    decreases |t|
  {
    if t != [] {
      var t' := t[..|t| - 1];
      assert t[|t| - 1] in t;
      assert (s + t)[|s + t| - 1] == t[|t| - 1] != c;
      assert forall x :: x in t' ==> x in t;
      assert (s + t)[..|s + t| - 1] == s + t';
      RFindAppend(s, t', c);
    } else {
      assert s + t == s;
    }
  }

  /**
   * `posixpath.join(a, b)`: an absolute `b` replaces `a`; otherwise `b` is
   * appended, with a '/' in between unless `a` is empty or already ends in one.
   */
  function Join(a: string, b: string): (r: string)
    ensures EndsWith(r, b)
    ensures StartsWith(b, "/") ==> r == b
    ensures !StartsWith(b, "/") ==>
      StartsWith(r, a) && |r| == |a| + |b| + (if a == [] || EndsWith(a, "/") then 0 else 1)
    ensures !StartsWith(b, "/") && a != [] && !EndsWith(a, "/") ==> r[|a|] == '/'
  {
    if StartsWith(b, "/") then
      EndsWithAppend([], b);
      b
    else if a == [] || EndsWith(a, "/") then
      EndsWithAppend(a, b);
      assert (a + b)[..|a|] == a;
      a + b
    else
      EndsWithAppend(a + "/", b);
      assert (a + "/" + b)[..|a|] == a;
      a + "/" + b
  }

  /**
   * Joining a directory and a name without '/' makes the name the last
   * component: exactly one '/' precedes it, and what precedes that '/' is
   * the directory (less its own trailing '/', if it had one).
   */
  lemma JoinLastComponent(a: string, b: string)
    requires a != [] && '/' !in b
    ensures var r := Join(a, b);
      && RFind(r, '/') == |r| - |b| - 1
      && r[..|r| - |b|] == (if EndsWith(a, "/") then a else a + "/")
  {
    assert !StartsWith(b, "/") by {
      if |b| >= 1 { assert b[0] in b; }
    }
    var dir := if EndsWith(a, "/") then a else a + "/";
    assert dir[|dir| - 1] == '/' by {
      if EndsWith(a, "/") { assert a[|a| - 1..] == "/"; }
    }
    assert Join(a, b) == dir + b;
    RFindAppend(dir, b, '/');
    assert dir != [] && RFind(dir, '/') == |dir| - 1;
    assert (dir + b)[..|dir|] == dir;
  }

  /**
   * True when the last component of `p` (what follows the last '/') has a
   * character other than '.' before index `dot`: only then does a dot start
   * an extension, so ".bashrc" and "..." have none.
   */
  predicate HasStem(p: string, dot: int)
    requires -1 <= RFind(p, '/') && dot <= |p|
  {
    exists k | RFind(p, '/') + 1 <= k < dot :: p[k] != '.'
  }

  /**
   * `os.path.splitext(p)` on POSIX: split at the last '.' of the last path
   * component, unless every character before that dot in the component is
   * itself a dot; then the extension is empty.
   */
  function SplitExt(p: string): (r: (string, string))
    ensures r.0 + r.1 == p
  {
    var sep := RFind(p, '/');
    var dot := RFind(p, '.');
    if sep < dot && HasStem(p, dot) then (p[..dot], p[dot..]) else (p, [])
  }

  /**
   * The two parts of `splitext` put together give the path back; the
   * extension is empty or is one '.' followed by neither '.' nor '/', and it
   * is non-empty exactly when the last component has a stem before its last dot.
   */
  lemma SplitExtParts(p: string)
    ensures var (root, ext) := SplitExt(p);
      && root + ext == p
      && (ext == [] || (ext[0] == '.' && '.' !in ext[1..] && '/' !in ext))
      && (ext != [] <==> (RFind(p, '/') < RFind(p, '.') && HasStem(p, RFind(p, '.'))))
  {
    var sep := RFind(p, '/');
    var dot := RFind(p, '.');
    if sep < dot && HasStem(p, dot) {
      var ext := p[dot..];
      assert ext[0] == '.';
      assert forall k :: 0 < k < |ext| ==> ext[k] == p[dot + k];
      assert forall c :: c in ext[1..] ==> exists k :: 0 < k < |ext| && ext[k] == c;
      assert p[..dot] + ext == p;
    }
  }

  /** The configured record extension without its optional leading dot. */
  function BareExtension(ext: string): (r: string)
    ensures (ext == "." + r) || (ext == r && !StartsWith(ext, "."))
  {
    if StartsWith(ext, ".") then ext[1..] else ext
  }

  /**
   * `record_path_of`: the test path with its extension (as `splitext` finds
   * it) replaced by the record extension, a '.' put in front of it unless
   * the configured extension already starts with one. The result is the
   * `splitext` root, then '.', then the extension without its optional
   * leading dot, so it always ends in the configured extension.
   */
  function RecordPathOf(testPath: string, ext: string): (r: string)
    ensures r == SplitExt(testPath).0 + "." + BareExtension(ext)
    ensures EndsWith(r, ext)
  {
    var base := SplitExt(testPath).0;
    base + (if StartsWith(ext, ".") then "" else ".") + ext
  }

  /** "rec" and ".rec" name the same record file. */
  lemma DottedExtensionSameRecord(testPath: string, ext: string)
    requires !StartsWith(ext, ".")
    ensures RecordPathOf(testPath, ext) == RecordPathOf(testPath, "." + ext)
  {
    assert ("." + ext)[1..] == ext;
  }

  /** Replacing a '/'-free tail of a path by another keeps its directory part. */
  lemma SameDirectory(p: string, base: string, suffix: string, tail: string)
    requires base + suffix == p && '/' !in suffix && '/' !in tail
    ensures var dir := RFind(p, '/') + 1;
      dir <= |base + tail| && (base + tail)[..dir] == p[..dir] && RFind(base + tail, '/') == RFind(p, '/')
  {
    RFindAppend(base, suffix, '/');
    RFindAppend(base, tail, '/');
    var dir := RFind(base, '/') + 1;
    assert (base + tail)[..dir] == base[..dir];
    assert (base + suffix)[..dir] == base[..dir];
  }

  /**
   * The record is a sibling of the test: both lie in the same directory,
   * whenever the record extension has no '/' in it.
   */
  lemma RecordIsSibling(testPath: string, ext: string)
    requires '/' !in ext
    ensures var dir := RFind(testPath, '/') + 1;
      var r := RecordPathOf(testPath, ext);
      dir <= |r| && r[..dir] == testPath[..dir] && RFind(r, '/') == RFind(testPath, '/')
  {
    var (root, suffix) := SplitExt(testPath);
    SplitExtParts(testPath);
    var bare := BareExtension(ext);
    assert '/' !in bare by {
      if StartsWith(ext, ".") {
        assert forall x :: x in ext[1..] ==> x in ext;
      }
    }
    assert '/' !in "." + bare;
    SameDirectory(testPath, root, suffix, "." + bare);
    assert RecordPathOf(testPath, ext) == root + ("." + bare);
  }

  /** `record_path_of` on typical paths, with and without the dot in the extension. */
  lemma RecordPathExamples()
    ensures RecordPathOf("tests/a.txt", "rec") == "tests/a.rec"
    ensures RecordPathOf("tests/a.txt", ".rec") == "tests/a.rec"
    ensures RecordPathOf("tests/.hidden", "rec") == "tests/.hidden.rec"
    ensures RecordPathOf("v1.2/run", "rec") == "v1.2/run.rec"
  {
    PlainExample();
    HiddenExample();
    DottedDirectoryExample();
  }

  lemma PlainExample()
    ensures RecordPathOf("tests/a.txt", "rec") == "tests/a.rec"
    ensures RecordPathOf("tests/a.txt", ".rec") == "tests/a.rec"
  {
    var p := "tests/a.txt";
    assert p[5] == '/' && p[7] == '.' && p[6] != '.';
    assert RFind(p, '/') == 5 && RFind(p, '.') == 7 && HasStem(p, 7);
    assert SplitExt(p).0 == "tests/a";
    assert BareExtension("rec") == "rec" by { assert "rec"[0] == 'r'; }
    assert BareExtension(".rec") == "rec";
  }

  lemma HiddenExample()
    ensures RecordPathOf("tests/.hidden", "rec") == "tests/.hidden.rec"
  {
    var h := "tests/.hidden";
    assert h[5] == '/' && h[6] == '.';
    assert RFind(h, '/') == 5 && RFind(h, '.') == 6 && !HasStem(h, 6);
    assert BareExtension("rec") == "rec" by { assert "rec"[0] == 'r'; }
  }

  lemma DottedDirectoryExample()
    ensures RecordPathOf("v1.2/run", "rec") == "v1.2/run.rec"
  {
    var v := "v1.2/run";
    assert v[4] == '/' && v[2] == '.';
    assert RFind(v, '/') == 4 && RFind(v, '.') == 2;
    assert BareExtension("rec") == "rec" by { assert "rec"[0] == 'r'; }
  }
}
