/**
 * The parts of a path `std::filesystem::path` hands out on a POSIX system,
 * as src/encode.cpp (`materialize_data`) and src/decode.cpp (the image
 * filter) use them: `filename()`, `extension()`, `stem()`, and the
 * `std::tolower` of the "C" locale.
 */
module Paths {

  /** The position of the last `c` among the first `n` characters of `s`, or -1 when there is none. */
  function LastIndexBelow(s: string, c: char, n: nat): (r: int)
    requires n <= |s|
    ensures -1 <= r < n
    ensures r >= 0 ==> s[r] == c
    ensures forall k | r < k < n :: s[k] != c
  {
    if n == 0 then -1
    else if s[n - 1] == c then n - 1
    else LastIndexBelow(s, c, n - 1)
  }

  /** `rfind`: the position of the last `c` in `s`, or -1 when there is none. */
  function LastIndex(s: string, c: char): (r: int)
    ensures -1 <= r < |s|
    ensures r >= 0 ==> s[r] == c
    ensures forall k | r < k < |s| :: s[k] != c
  {
    LastIndexBelow(s, c, |s|)
  }

  /**
   * `filename()`: what follows the last `/`; empty when the path ends with
   * `/` (a directory given as `dir/` has an empty file name).
   */
  function Filename(p: string): (f: string)
    ensures |f| <= |p| && f == p[|p| - |f|..]
    ensures '/' !in f
    ensures |f| < |p| ==> p[|p| - |f| - 1] == '/'
  {
    p[LastIndex(p, '/') + 1..]
  }

  /**
   * `extension()` of a file name: from its last `.` to the end, unless the
   * name is `.` or `..`, has no `.`, or has its only `.` in front (a hidden
   * file such as `.profile` has no extension).
   */
  function Extension(f: string): (e: string)
    ensures |e| <= |f| && e == f[|f| - |e|..]
    ensures e != [] ==> e[0] == '.' && |e| < |f|
    ensures forall k | 0 < k < |e| :: e[k] != '.'
  {
    var d := LastIndex(f, '.');
    // "." has its only dot in front; ".." is named specially
    if d <= 0 || f == ".." then "" else f[d..]
  }

  /** `stem()`: the file name without its extension. */
  function Stem(f: string): (s: string)
    ensures s + Extension(f) == f
  {
    var e := Extension(f);
    assert f == f[..|f| - |e|] + f[|f| - |e|..];
    f[..|f| - |e|]
  }

  /**
   * `materialize_data` without the archiving: a directory is sent as a zip
   * archive under the directory's own name; a file is sent as it is, its
   * name split into base and extension. `isDir` is the answer of
   * `std::filesystem::is_directory`.
   */
  method MaterializeData(input: string, isDir: bool) returns (nameBase: string, metaExt: string)
    ensures isDir ==> nameBase == Filename(input) && metaExt == ".zip"
    ensures !isDir ==> nameBase + metaExt == Filename(input)
    ensures !isDir ==> metaExt == Extension(Filename(input))
    ensures !isDir && metaExt != [] ==> metaExt[0] == '.' && nameBase != []
  {
    if isDir {
      nameBase := Filename(input);
      metaExt := ".zip";
    } else {
      var f := Filename(input);
      metaExt := if Extension(f) != [] then Extension(f) else [];
      nameBase := if metaExt == [] then f else Stem(f);
      assert f == Stem(f) + Extension(f);
    }
  }

  /** `std::tolower` in the "C" locale: only `A`..`Z` change. */
  function Lower(c: char): (r: char)
    ensures 'A' <= c <= 'Z' ==> 'a' <= r <= 'z' && r as int == c as int + 32
    ensures !('A' <= c <= 'Z') ==> r == c
  {
    if 'A' <= c <= 'Z' then (c as int + 32) as char else c
  }

  function LowerAll(s: string): (r: string)
    ensures |r| == |s| && forall k | 0 <= k < |s| :: r[k] == Lower(s[k])
  {
    seq(|s|, k requires 0 <= k < |s| => Lower(s[k]))
  }

  /** The lower-casing loop over the extension in src/decode.cpp. */
  method LowerInPlace(a: array<char>)
    modifies a
    ensures a[..] == LowerAll(old(a[..]))
  {
    ghost var s := a[..];
    for k := 0 to a.Length
      invariant forall j | 0 <= j < k :: a[j] == Lower(s[j])
      invariant forall j | k <= j < a.Length :: a[j] == s[j]
    {
      a[k] := Lower(a[k]);
    }
    assert a[..] == LowerAll(s);
  }

  /** `for(auto& c: ext) c = std::tolower(c);` on a copy of `ext`. */
  method LowerCopy(ext: string) returns (lower: string)
    ensures lower == LowerAll(ext)
  {
    var a := new char[|ext|](i requires 0 <= i < |ext| => ext[i]);
    assert a[..] == ext;
    LowerInPlace(a);
    lower := a[..];
  }

  /** The three extensions the decoder scans, compared after lower-casing. */
  predicate ImageExtension(e: string) {
    var l := LowerAll(e);
    l == ".png" || l == ".jpg" || l == ".jpeg"
  }
}
