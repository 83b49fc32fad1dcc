/** The file helpers a data source uses to find its input: the extension of
    a file name, and the newest file of a folder listing whose name matches a
    pattern. The folder listing (a glob) and the files' creation times come
    from the file system and are parameters here. Paths follow POSIX: the
    separator is '/'. */
module FileUtils {
  import opened Seqs

  const Sep: char := '/'
  const ExtSep: char := '.'

  /** Python's `str.rfind` of one character: its last index, or -1. */
  function RFind(s: string, c: char): (i: int)
    ensures -1 <= i < |s|
    ensures i >= 0 ==> s[i] == c
    ensures forall j :: i < j < |s| ==> s[j] != c
    decreases |s|
  {
    if |s| == 0 then -1
    else if s[|s| - 1] == c then |s| - 1
    else RFind(s[..|s| - 1], c)
  }

  /** Some character of `p[from..to]` is not a dot. */
  predicate NonDotBetween(p: string, from: int, to: int) {
    exists k :: from <= k < to && 0 <= k < |p| && p[k] != ExtSep
  }

  /** `os.path.splitext`: the extension starts at the last dot of the last
      path component, unless everything before that dot in the component is
      dots too (a hidden file such as `.bashrc` has no extension). */
  function SplitExt(p: string): (r: (string, string))
    ensures r.0 + r.1 == p
    ensures r.1 != [] ==>
              && r.1[0] == ExtSep
              && Sep !in r.1
              && ExtSep !in r.1[1..]
              && NonDotBetween(p, RFind(p, Sep) + 1, |r.0|)
    ensures r.1 == [] <==>
              RFind(p, ExtSep) <= RFind(p, Sep) || !NonDotBetween(p, RFind(p, Sep) + 1, RFind(p, ExtSep))
  {
    var sepIndex := RFind(p, Sep);
    var dotIndex := RFind(p, ExtSep);
    if dotIndex > sepIndex && NonDotBetween(p, sepIndex + 1, dotIndex) then
      assert forall j :: 0 <= j < |p[dotIndex..]| ==> p[dotIndex..][j] == p[dotIndex + j];
      (p[..dotIndex], p[dotIndex..])
    else (p, [])
  }

  /** `get_extension` */
  function GetExtension(filename: string): (ext: string)
    ensures IsSuffix(ext, filename)
    ensures ext == [] || (ext[0] == ExtSep && Sep !in ext && ExtSep !in ext[1..])
  {
    SplitExt(filename).1
  }

  predicate IsSuffix(s: string, t: string) {
    |s| <= |t| && t[|t| - |s|..] == s
  }

  lemma {:induction false} RFindAppend(n: string, e: string, c: char)
    requires c !in e
    ensures RFind(n + e, c) == RFind(n, c)
    decreases |e|
  {
    if |e| == 0 {
      assert n + e == n;
    } else {
      var e0 := e[..|e| - 1];
      assert (n + e)[..|n + e| - 1] == n + e0;
      assert (n + e)[|n + e| - 1] == e[|e| - 1];
      assert c !in e0;
      RFindAppend(n, e0, c);
    }
  }

  /** The last occurrence pinned down by its position. */
  lemma RFindAt(s: string, c: char, i: int)
    requires 0 <= i < |s| && s[i] == c
    requires forall j :: i < j < |s| ==> s[j] != c
    ensures RFind(s, c) == i
  {
  }

  /** No occurrence at all. */
  lemma RFindNone(s: string, c: char)
    requires c !in s
    ensures RFind(s, c) == -1
  {
  }

  /** The dot an extension starts with is the last dot of the joined name. */
  lemma LastDotOfExtension(name: string, ext: string)
    requires |ext| > 0 && ext[0] == ExtSep && ExtSep !in ext[1..]
    ensures RFind(name + ext, ExtSep) == |name|
  {
    var p := name + ext;
    assert p[|name|] == ExtSep;
    forall j | |name| < j < |p| ensures p[j] != ExtSep {
      assert p[j] == ext[1..][j - |name| - 1];
    }
    RFindAt(p, ExtSep, |name|);
  }

  /** A non-dot character of the name is one of the joined name too. */
  lemma NonDotOfPrefix(name: string, ext: string, from: int)
    requires NonDotBetween(name, from, |name|)
    ensures NonDotBetween(name + ext, from, |name|)
  {
    var k :| from <= k < |name| && 0 <= k < |name| && name[k] != ExtSep;
    assert (name + ext)[k] == name[k];
  }

  /** Appending an extension to a name whose last component holds something
      other than dots, `get_extension` gives that extension back. */
  lemma ExtensionRoundTrip(name: string, ext: string)
    requires NonDotBetween(name, RFind(name, Sep) + 1, |name|)
    requires |ext| > 0 && ext[0] == ExtSep && Sep !in ext && ExtSep !in ext[1..]
    ensures GetExtension(name + ext) == ext
  {
    var p := name + ext;
    RFindAppend(name, ext, Sep);
    LastDotOfExtension(name, ext);
    NonDotOfPrefix(name, ext, RFind(name, Sep) + 1);
    assert p[|name|..] == ext;
  }

  /** The extension of a file in a folder, and of a doubly suffixed name:
      only the last suffix counts. */
  lemma ExtensionExamples()
    ensures GetExtension("data/file.csv") == ".csv"
    ensures GetExtension("archive.tar.gz") == ".gz"
  {
    var a := "data/file";
    assert a[5] != ExtSep;
    ExtensionRoundTrip(a, ".csv");
    assert a + ".csv" == "data/file.csv";
    var b := "archive.tar";
    assert b[0] != ExtSep;
    ExtensionRoundTrip(b, ".gz");
    assert b + ".gz" == "archive.tar.gz";
  }

  /** A hidden file has no extension, nor has a file whose only dot is in a
      folder name. */
  lemma NoExtensionExamples()
    ensures GetExtension(".bashrc") == ""
    ensures GetExtension("dir.d/file") == ""
  {
    RFindAt(".bashrc", ExtSep, 0);
    RFindNone(".bashrc", Sep);
    RFindAt("dir.d/file", Sep, 5);
    RFindAt("dir.d/file", ExtSep, 3);
  }

  /** The glob pattern of `get_newest_filename`: the (already normalised)
      folder, then the separator and the extension pattern when one is given. */
  function GlobPattern(path: string, extensionPattern: string): (g: string)
    ensures extensionPattern == [] ==> g == path
    ensures extensionPattern != [] ==>
              |g| == |path| + 1 + |extensionPattern| && IsPrefix(path, g)
              && g[|path|] == Sep && IsSuffix(extensionPattern, g)
  {
    if extensionPattern != [] then path + [Sep] + extensionPattern else path
  }

  /** Python's `str.find` from index `i`: the first index at or after `i`
      where `pat` occurs, or -1. */
  function FindFrom(s: string, pat: string, i: nat): (r: int)
    ensures r == -1 || (i <= r <= |s| - |pat| && OccursAt(pat, s, r))
    ensures r == -1 ==> forall j :: i <= j <= |s| - |pat| ==> !OccursAt(pat, s, j)
    ensures r >= 0 ==> forall j :: i <= j < r ==> !OccursAt(pat, s, j)
    decreases |s| + 1 - i
  {
    if i + |pat| > |s| then -1
    else if OccursAt(pat, s, i) then i
    else FindFrom(s, pat, i + 1)
  }

  /** `str.find`: -1 exactly when `pat` does not occur; else its first occurrence. */
  function Find(s: string, pat: string): (r: int)
    ensures r == -1 <==> !IsSubstring(pat, s)
    ensures r >= 0 ==> r <= |s| - |pat| && OccursAt(pat, s, r) && forall j :: 0 <= j < r ==> !OccursAt(pat, s, j)
  {
    FindFrom(s, pat, 0)
  }

  /** `find` returns 0 exactly when the pattern starts the string. */
  lemma FindZero(s: string, pat: string)
    ensures Find(s, pat) == 0 <==> IsPrefix(pat, s)
  {
    if IsPrefix(pat, s) {
      assert OccursAt(pat, s, 0);
    }
  }

  /** The name filter as written: a file is kept when `find` gives a true
      value, that is, any index but 0, so -1 (no match) keeps it too. */
  function FilterAsWritten(files: seq<string>, pattern: string): (r: seq<string>)
    ensures pattern == [] ==> r == files
    ensures pattern != [] ==> forall f :: f in r <==> f in files && !IsPrefix(pattern, f)
  {
    if pattern != [] then
      FindZeroAll(pattern);
      Filter(files, (f: string) => Find(f, pattern) != 0)
    else files
  }

  lemma FindZeroAll(pattern: string)
    ensures forall f :: Find(f, pattern) == 0 <==> IsPrefix(pattern, f)
  {
    forall f ensures Find(f, pattern) == 0 <==> IsPrefix(pattern, f) {
      FindZero(f, pattern);
    }
  }

  /** The name filter as evidently intended: a file is kept when the pattern
      occurs in its name; an empty pattern keeps every file. */
  function FilterByPattern(files: seq<string>, pattern: string): (r: seq<string>)
    ensures pattern == [] ==> r == files
    ensures pattern != [] ==> forall f :: f in r <==> f in files && IsSubstring(pattern, f)
    ensures |r| <= |files|
  {
    if pattern != [] then Filter(files, (f: string) => IsSubstring(pattern, f)) else files
  }

  /** A listing of two files of a folder, one of them holding the pattern
      "sales" in its name. */
  lemma SalesListing(a: string, b: string)
    requires a == "/in/sales.csv" && b == "/in/report.csv"
    ensures IsSubstring("sales", a) && !IsSubstring("sales", b)
    ensures !IsPrefix("sales", a) && !IsPrefix("sales", b)
  {
    assert OccursAt("sales", a, 4);
    assert !IsPrefix("sales", a) by { assert a[0] != 's'; }
    assert !IsPrefix("sales", b) by { assert b[0] != 's'; }
    forall i | 0 <= i <= |b| - 5 ensures !OccursAt("sales", b, i) {
      assert b[i] != 's';
    }
  }

  /** Under the filter as written, the file without the pattern is kept
      along with the one holding it. */
  lemma FilterKeepsNonMatching()
    ensures FilterAsWritten(["/in/sales.csv", "/in/report.csv"], "sales") == ["/in/sales.csv", "/in/report.csv"]
  {
    var a, b := "/in/sales.csv", "/in/report.csv";
    SalesListing(a, b);
    FindZero(a, "sales");
    FindZero(b, "sales");
  }

  /** Under the filter as written, a file whose name starts with the pattern
      is dropped. */
  lemma FilterDropsLeadingMatch()
    ensures FilterAsWritten(["sales.csv"], "sales") == []
  {
    assert IsPrefix("sales", "sales.csv");
  }

  /** The intended filter keeps only the file holding the pattern. */
  lemma FilterByPatternSelects()
    ensures FilterByPattern(["/in/sales.csv", "/in/report.csv"], "sales") == ["/in/sales.csv"]
  {
    var a, b := "/in/sales.csv", "/in/report.csv";
    SalesListing(a, b);
    var p := (f: string) => IsSubstring("sales", f);
    assert [a, b][1..] == [b];
    assert [b][1..] == [];
    assert Filter([b], p) == [];
    assert Filter([a, b], p) == [a] + Filter([b], p);
  }

  /** Python's `max(files, key=ctime)`: the first file of the latest
      creation time. */
  method Newest(files: seq<string>, ctime: string -> int) returns (newest: string)
    requires |files| > 0
    ensures newest in files
    ensures forall f :: f in files ==> ctime(f) <= ctime(newest)
    ensures exists i :: 0 <= i < |files| && files[i] == newest
                        && forall j :: 0 <= j < i ==> ctime(files[j]) < ctime(newest)
  {
    newest := files[0];
    var at := 0;
    for i := 1 to |files|
      invariant 0 <= at < i && files[at] == newest
      invariant forall j :: 0 <= j < i ==> ctime(files[j]) <= ctime(newest)
      invariant forall j :: 0 <= j < at ==> ctime(files[j]) < ctime(newest)
    {
      if ctime(files[i]) > ctime(newest) {
        newest := files[i];
        at := i;
      }
    }
  }

  /** `get_newest_filename`: lists the folder with the glob pattern, keeps
      the files the name pattern selects, and returns '' when none is left,
      else the newest of them. */
  method GetNewestFilename(path: string, extensionPattern: string, filenamePattern: string,
                           glob: string -> seq<string>, ctime: string -> int)
    returns (r: string)
    ensures var kept := FilterByPattern(glob(GlobPattern(path, extensionPattern)), filenamePattern);
            && (|kept| == 0 ==> r == [])
            && (|kept| > 0 ==> r in kept && forall f :: f in kept ==> ctime(f) <= ctime(r))
    ensures r != [] ==> r in glob(GlobPattern(path, extensionPattern))
    ensures r != [] && filenamePattern != [] ==> IsSubstring(filenamePattern, r)
  {
    var allFiles := glob(GlobPattern(path, extensionPattern));
    var filtered := FilterByPattern(allFiles, filenamePattern);
    if |filtered| == 0 {
      return [];
    }
    r := Newest(filtered, ctime);
  }
}
