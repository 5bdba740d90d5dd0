/**
 * Choosing candidate image files: Python's `os.path.splitext`,
 * `os.path.basename` and `str.lower` as pure string functions, the
 * module-level `get_images_from_dir`, and the directory operator's own
 * variant of it. The directory listing is an input sequence.
 */
module ImageFiles {
  import opened Sorting

  /** `s.rfind(c)`: the last position of `c` in `s`, or -1. */
  function LastIndexOf(s: string, c: char): (r: int)
    ensures -1 <= r < |s|
    ensures r >= 0 ==> s[r] == c
    ensures forall k :: r < k < |s| ==> s[k] != c
  {
    if s == [] then -1
    else if s[|s| - 1] == c then |s| - 1
    else LastIndexOf(s[..|s| - 1], c)
  }

  /** Nothing after the last occurrence of `c` is `c`. */
  lemma NoneAfterLast(s: string, c: char)
    ensures c !in s[LastIndexOf(s, c) + 1..]
  {
    var i := LastIndexOf(s, c);
    var t := s[i + 1..];
    forall k | 0 <= k < |t| ensures t[k] != c {
      assert t[k] == s[i + 1 + k];
    }
  }

  /** `os.path.basename` (POSIX): everything after the last '/'. */
  function Basename(path: string): (r: string)
    ensures '/' !in r
    ensures |r| <= |path| && path[|path| - |r|..] == r
    ensures |r| == |path| - 1 - LastIndexOf(path, '/')
  {
    var i := LastIndexOf(path, '/');
    NoneAfterLast(path, '/');
    var r := path[i + 1..];
    assert |path| - |r| == i + 1;
    r
  }

  /** A name without '/' is its own base name. */
  lemma BasenameOfBareName(name: string)
    requires '/' !in name
    ensures Basename(name) == name
  {
    assert forall k :: 0 <= k < |name| ==> name[k] != '/';
  }

  /** Whether some character of `s[lo..hi]` is not a dot. */
  predicate HasNonDot(s: string, lo: int, hi: int)
    requires 0 <= lo <= hi <= |s|
    decreases hi - lo
  {
    lo < hi && (s[lo] != '.' || HasNonDot(s, lo + 1, hi))
  }

  /** A non-dot in `s[lo..hi]` is still there in a longer slice. */
  lemma {:induction false} HasNonDotGrows(s: string, lo: int, hi: int, hi2: int)
    requires 0 <= lo <= hi <= hi2 <= |s|
    requires HasNonDot(s, lo, hi)
    ensures HasNonDot(s, lo, hi2)
    decreases hi - lo
  {
    if s[lo] == '.' {
      HasNonDotGrows(s, lo + 1, hi, hi2);
    }
  }

  /**
   * `os.path.splitext` (POSIX): the extension starts at the last dot of the
   * last path component, unless only dots precede that dot in the
   * component (so ".png" and "..png" have no extension).
   */
  function Splitext(path: string): (r: (string, string))
    ensures r.0 + r.1 == path
    ensures r.1 == [] || (r.1[0] == '.' && '.' !in r.1[1..] && '/' !in r.1)
    ensures r.1 != [] ==> LastIndexOf(path, '/') < |r.0| && HasNonDot(path, LastIndexOf(path, '/') + 1, |r.0|)
    ensures r.1 == [] ==> forall k :: LastIndexOf(path, '/') < k < |path| && path[k] == '.' ==>
      !HasNonDot(path, LastIndexOf(path, '/') + 1, k)
  {
    var sep := LastIndexOf(path, '/');
    var dot := LastIndexOf(path, '.');
    var lo := sep + 1;
    forall k | lo <= k <= dot && HasNonDot(path, lo, k) ensures HasNonDot(path, lo, dot) {
      HasNonDotGrows(path, lo, k, dot);
    }
    if dot > sep && HasNonDot(path, lo, dot) then
      assert forall k :: 1 <= k < |path| - dot ==> path[dot..][k] == path[dot + k];
      (path[..dot], path[dot..])
    else (path, [])
  }

  function Ext(path: string): string {
    Splitext(path).1
  }

  /** `str.lower` on ASCII letters. */
  function Lower(s: string): (r: string)
    ensures |r| == |s|
    ensures forall k :: 0 <= k < |s| ==> r[k] == if 'A' <= s[k] <= 'Z' then s[k] - 'A' + 'a' else s[k]
  {
    if s == [] then []
    else [if 'A' <= s[0] <= 'Z' then s[0] - 'A' + 'a' else s[0]] + Lower(s[1..])
  }

  /** `a in b` for Python strings: `a` occurs as a substring of `b`. */
  function IsSubstring(a: string, b: string): (r: bool)
    ensures r ==> |a| <= |b|
    decreases |b|
  {
    a <= b || (b != [] && IsSubstring(a, b[1..]))
  }

  /** `a` sits in `b` starting at position `i`. */
  predicate OccursAt(a: string, b: string, i: nat) {
    i + |a| <= |b| && b[i..i + |a|] == a
  }

  lemma {:induction false} IsSubstringAt(a: string, b: string, i: nat)
    requires i + |a| <= |b| && b[i..i + |a|] == a
    ensures IsSubstring(a, b)
  {
    if i > 0 {
      assert b[1..][i - 1..i - 1 + |a|] == b[i..i + |a|];
      IsSubstringAt(a, b[1..], i - 1);
    }
  }

  /** The substring test holds exactly when `a` occurs somewhere in `b`. */
  lemma {:induction false} IsSubstringIffOccurs(a: string, b: string)
    ensures IsSubstring(a, b) <==> exists i: nat :: OccursAt(a, b, i)
    decreases |b|
  {
    if exists i: nat :: OccursAt(a, b, i) {
      var i: nat :| OccursAt(a, b, i);
      IsSubstringAt(a, b, i);
    }
    if IsSubstring(a, b) {
      if a <= b {
        assert OccursAt(a, b, 0);
      } else {
        IsSubstringIffOccurs(a, b[1..]);
        var i: nat :| OccursAt(a, b[1..], i);
        assert b[1..][i..i + |a|] == b[i + 1..i + 1 + |a|];
        assert OccursAt(a, b, i + 1);
      }
    }
  }

  /** The elements of `s` that satisfy `keep`, in order. */
  function Filter<T>(s: seq<T>, keep: T -> bool): (r: seq<T>)
    ensures |r| <= |s|
    ensures forall k :: 0 <= k < |r| ==> keep(r[k])
  {
    if s == [] then [] else (if keep(s[0]) then [s[0]] else []) + Filter(s[1..], keep)
  }

  /** Filtering keeps each element that satisfies `keep` as often as it occurs. */
  lemma {:induction false} FilterCounts<T>(s: seq<T>, keep: T -> bool, x: T)
    ensures multiset(Filter(s, keep))[x] == if keep(x) then multiset(s)[x] else 0
  {
    if s != [] {
      FilterCounts(s[1..], keep, x);
      assert s == [s[0]] + s[1..];
    }
  }

  lemma {:induction false} FilterKeepsSorted(s: seq<string>, keep: string -> bool)
    requires IsSorted(s)
    ensures IsSorted(Filter(s, keep))
  {
    if s != [] {
      FilterKeepsSorted(s[1..], keep);
      var t := Filter(s[1..], keep);
      forall k | 0 <= k < |t| ensures AtMost(s[0], t[k]) {
        assert t[k] in multiset(t);
        FilterCounts(s[1..], keep, t[k]);
        assert t[k] in multiset(s[1..]);
        var j :| 0 <= j < |s[1..]| && s[1..][j] == t[k];
        assert s[1 + j] == t[k];
      }
    }
  }

  /** Filtering and sorting commute, so the two scanners' orders agree. */
  lemma FilterSortCommute(s: seq<string>, keep: string -> bool)
    ensures Filter(SortStrings(s), keep) == SortStrings(Filter(s, keep))
  {
    FilterKeepsSorted(SortStrings(s), keep);
    var a, b := Filter(SortStrings(s), keep), SortStrings(Filter(s, keep));
    assert multiset(a) == multiset(b) by {
      forall x ensures multiset(a)[x] == multiset(b)[x] {
        FilterCounts(SortStrings(s), keep, x);
        FilterCounts(s, keep, x);
      }
    }
    SortedPermutationUnique(a, b);
  }

  const ImageExtensions: seq<string> := [".png", ".jpg", ".jpeg"]

  /** `is_image_file`: the lower-cased extension is one of the image extensions. */
  function IsImageFile(filename: string): (r: bool)
    ensures r ==> var e := Ext(filename); 4 <= |e| <= 5 && e[0] == '.'
  {
    Lower(Ext(filename)) in ImageExtensions
  }

  /**
   * Module-level `get_images_from_dir`: the listed entries whose lower-cased
   * extension is an image extension, sorted. The `sort` flag is ignored:
   * `get_images_from_dir` always sorts.
   */
  function GetImagesFromDir(listing: seq<string>, sort: bool): (r: seq<string>)
    ensures IsSorted(r)
    ensures forall f :: multiset(r)[f] == if IsImageFile(f) then multiset(listing)[f] else 0
    ensures forall f :: f in r <==> f in listing && IsImageFile(f)
  {
    var r := SortStrings(Filter(listing, IsImageFile));
    assert forall f :: multiset(r)[f] == if IsImageFile(f) then multiset(listing)[f] else 0 by {
      forall f ensures multiset(r)[f] == if IsImageFile(f) then multiset(listing)[f] else 0 {
        FilterCounts(listing, IsImageFile, f);
      }
    }
    assert forall f :: f in r <==> f in multiset(r);
    assert forall f :: f in listing <==> f in multiset(listing);
    r
  }

  /** The extension list the directory operator tests against, as a string. */
  const OperatorExtensions: string := ".jpg;.jpeg;.png"

  /** The operator's test: a non-empty extension that occurs inside ".jpg;.jpeg;.png". */
  function OperatorAccepts(filename: string): (r: bool)
    ensures r ==> var e := Ext(filename); e != [] && e[0] == '.' && |e| <= |OperatorExtensions|
  {
    var ext := Lower(Ext(filename));
    ext != [] && IsSubstring(ext, OperatorExtensions)
  }

  /** The operator lists the directory only when its first selected name is blank. */
  function OperatorCandidates(files: seq<string>, listing: seq<string>): (r: seq<string>)
    ensures files == [] ==> r == []
    ensures files != [] && files[0] != "" ==> r == files
    ensures files != [] && files[0] == "" ==> r == listing
  {
    if files != [] && files[0] == "" then listing else files
  }

  /** The names the operator keeps: sorted first, then filtered. */
  function OperatorSelection(files: seq<string>, listing: seq<string>): (r: seq<string>)
    ensures IsSorted(r)
    ensures forall f :: multiset(r)[f] ==
                        (if OperatorAccepts(f) then multiset(OperatorCandidates(files, listing))[f] else 0)
  {
    var sorted := SortStrings(OperatorCandidates(files, listing));
    FilterKeepsSorted(sorted, OperatorAccepts);
    assert forall f :: multiset(Filter(sorted, OperatorAccepts))[f] ==
                        (if OperatorAccepts(f) then multiset(sorted)[f] else 0) by {
      forall f ensures multiset(Filter(sorted, OperatorAccepts))[f] ==
                       (if OperatorAccepts(f) then multiset(sorted)[f] else 0) {
        FilterCounts(sorted, OperatorAccepts, f);
      }
    }
    Filter(sorted, OperatorAccepts)
  }

  /**
   * The operator's `get_images_from_dir`: every kept name joined to the
   * directory and, when relative paths are used, made relative.
   */
  function OperatorImageFiles(directory: string, files: seq<string>, listing: seq<string>,
                              useRelativePath: bool,
                              join: (string, string) -> string, relpath: string -> string): (r: seq<string>)
    ensures files == [] ==> r == []
    ensures |r| == |OperatorSelection(files, listing)|
    ensures forall k :: 0 <= k < |r| ==>
      var path := join(directory, OperatorSelection(files, listing)[k]);
      r[k] == if useRelativePath then relpath(path) else path
  {
    var names := OperatorSelection(files, listing);
    seq(|names|, k requires 0 <= k < |names| =>
      if useRelativePath then relpath(join(directory, names[k])) else join(directory, names[k]))
  }

  /** Each of the three image extensions occurs inside the operator's string. */
  lemma ImageExtensionsInOperatorString(ext: string)
    requires ext in ImageExtensions
    ensures IsSubstring(ext, OperatorExtensions)
  {
    var e := OperatorExtensions;
    if ext == ".png" {
      assert e[11..15] == ".png";
      IsSubstringAt(ext, e, 11);
    } else if ext == ".jpg" {
      assert e[0..4] == ".jpg";
      IsSubstringAt(ext, e, 0);
    } else {
      assert e[5..10] == ".jpeg";
      IsSubstringAt(ext, e, 5);
    }
  }

  /** Every file the module-level scanner keeps also passes the operator's test. */
  lemma ImageFilesPassOperatorTest(filename: string)
    requires IsImageFile(filename)
    ensures OperatorAccepts(filename)
  {
    ImageExtensionsInOperatorString(Lower(Ext(filename)));
  }

  /** The operator's substring test also lets truncated extensions through. */
  lemma OperatorAcceptsTruncatedExtension(f: string)
    requires f == "pose.jp"
    ensures OperatorAccepts(f) && !IsImageFile(f)
  {
    assert |f| == 7 && f[4] == '.' && f[5] == 'j' && f[6] == 'p';
    assert forall k :: 0 <= k < |f| ==> f[k] != '/';
    assert LastIndexOf(f, '/') == -1;
    assert LastIndexOf(f, '.') == 4;
    assert HasNonDot(f, 0, 4) by { assert f[0] == 'p'; }
    assert Ext(f) == ".jp" by { assert f[4..] == ".jp"; }
    assert Lower(".jp") == ".jp";
    assert OperatorExtensions[0..3] == ".jp";
    IsSubstringAt(".jp", OperatorExtensions, 0);
  }
}
