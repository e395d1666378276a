/**
 * The image detector and `file:///` path extraction of the classifier
 * (categorizer.py), with small explicit models of `urllib.parse.unquote`
 * and of `pathlib.Path(...).suffix` for POSIX paths.
 */
module PathModel {
  import opened Chars
  import opened PyStr
  import opened Wrappers

  /** The URL scheme prefix the detector strips: eight characters. */
  const FileScheme: string := "file:///"

  /** The nine image extensions, lower case, with their dot. */
  const ImageExtensions: set<string> :=
    {".png", ".jpg", ".jpeg", ".gif", ".bmp", ".webp", ".ico", ".tiff", ".tif"}

  /** Every image extension is a dot and three or four letters, starting with one of a few. */
  lemma ImageExtensionShape(e: string)
    requires e in ImageExtensions
    ensures 4 <= |e| <= 5 && e[0] == '.' && e[1] in {'p', 'j', 'g', 'b', 'w', 'i', 't'}
  {
  }

  // ---------------------------------------------------------------------
  // Percent-decoding
  // ---------------------------------------------------------------------

  /** The digits `unquote` accepts after `%`, in either case. */
  predicate IsHexDigit(c: char) {
    IsDigit(c) || ('a' <= c <= 'f') || ('A' <= c <= 'F')
  }

  function HexValue(c: char): (v: nat)
    requires IsHexDigit(c)
    ensures v < 16
  {
    if IsDigit(c) then c as int - '0' as int
    else if 'a' <= c <= 'f' then c as int - 'a' as int + 10
    else c as int - 'A' as int + 10
  }

  /** The upper-case hexadecimal digit of `v`. */
  function HexChar(v: nat): (c: char)
    requires v < 16
    ensures IsHexDigit(c) && HexValue(c) == v
  {
    if v < 10 then ('0' as int + v) as char else ('A' as int + v - 10) as char
  }

  /**
   * `urllib.parse.unquote`: each `%XX` with two hexadecimal digits becomes
   * the character with code XX; a `%` not followed by two hexadecimal
   * digits is kept as it is.
   */
  function Unquote(s: string): (r: string)
    ensures |r| <= |s|
  {
    if |s| >= 3 && s[0] == '%' && IsHexDigit(s[1]) && IsHexDigit(s[2]) then
      [(16 * HexValue(s[1]) + HexValue(s[2])) as char] + Unquote(s[3..])
    else if s == [] then []
    else [s[0]] + Unquote(s[1..])
  }

  /** Text without `%` is returned unchanged (the decoder's fast path). */
  lemma {:induction false} UnquoteWithoutPercent(s: string)
    requires '%' !in s
    ensures Unquote(s) == s
  {
    if s != [] {
      UnquoteWithoutPercent(s[1..]);
      assert [s[0]] + s[1..] == s;
    }
  }

  /** Characters `unquote` can reproduce from a single `%XX` escape. */
  predicate IsByteChar(c: char) {
    c as int < 256
  }

  /** Percent-encodes every character of `s` as `%XX` (upper-case digits). */
  function PercentEncode(s: string): (r: string)
    requires forall i :: 0 <= i < |s| ==> IsByteChar(s[i])
    ensures |r| == 3 * |s|
  {
    if s == [] then []
    else
      var v := s[0] as int;
      assert IsByteChar(s[0]);
      ['%', HexChar(v / 16), HexChar(v % 16)] + PercentEncode(s[1..])
  }

  /** Decoding undoes percent-encoding. */
  lemma {:induction false} UnquotePercentEncode(s: string)
    requires forall i :: 0 <= i < |s| ==> IsByteChar(s[i])
    ensures Unquote(PercentEncode(s)) == s
  {
    if s != [] {
      var e := PercentEncode(s);
      var v := s[0] as int;
      assert e[0] == '%' && e[1] == HexChar(v / 16) && e[2] == HexChar(v % 16);
      assert e[3..] == PercentEncode(s[1..]);
      UnquotePercentEncode(s[1..]);
      assert (16 * (v / 16) + v % 16) as char == s[0];
      assert [s[0]] + s[1..] == s;
    }
  }

  // ---------------------------------------------------------------------
  // Path name and suffix
  // ---------------------------------------------------------------------

  /** The pieces of a `/`-separated path that pathlib keeps: not empty, not `.`. */
  function KeptParts(parts: seq<string>): (r: seq<string>)
    ensures |r| <= |parts|
    ensures forall k :: 0 <= k < |r| ==> r[k] != [] && r[k] != "." && r[k] in parts
  {
    if parts == [] then []
    else if parts[0] == [] || parts[0] == "." then KeptParts(parts[1..])
    else [parts[0]] + KeptParts(parts[1..])
  }

  /** The components of a POSIX path, as `PurePosixPath` parses it. */
  function Components(p: string): (r: seq<string>)
    ensures forall k :: 0 <= k < |r| ==> r[k] != [] && r[k] != "." && '/' !in r[k]
  {
    KeptParts(Split(p, '/'))
  }

  /** `Path(p).name`: the last component, or empty when there is none. */
  function BaseName(p: string): (r: string)
    ensures '/' !in r && r != "."
  {
    var cs := Components(p);
    if cs == [] then [] else cs[|cs| - 1]
  }

  /**
   * `Path(p).suffix` for a final component `name`: from the last `.` onward,
   * provided that dot is neither the first nor the last character.
   */
  function Suffix(name: string): (r: string)
    ensures r != [] <==> exists i :: 0 < i < |name| - 1 && name[i] == '.' && '.' !in name[i + 1..]
    ensures r != [] ==> |r| >= 2 && |r| < |name| && r == name[|name| - |r|..]
                        && r[0] == '.' && '.' !in r[1..]
  {
    var i := LastIndexOf(name, '.');
    if 0 < i < |name| - 1 then name[i..]
    else
      []
  }

  /** Filtering distributes over concatenation. */
  lemma {:induction false} KeptPartsAppend(a: seq<string>, b: seq<string>)
    ensures KeptParts(a + b) == KeptParts(a) + KeptParts(b)
  {
    if a != [] {
      assert (a + b)[1..] == a[1..] + b;
      KeptPartsAppend(a[1..], b);
    } else {
      assert a + b == b;
    }
  }

  /** The name of `dir/name` is `name`, whatever `dir` is. */
  lemma BaseNameJoin(dir: string, name: string)
    requires name != [] && name != "." && '/' !in name
    ensures BaseName(dir + "/" + name) == name
  {
    assert dir + "/" + name == dir + ['/'] + name;
    SplitConcat(dir, '/', name);
    SplitFree(name, '/');
    KeptPartsAppend(Split(dir, '/'), [name]);
  }

  /** A single proper component is its own name. */
  lemma BaseNameOfName(name: string)
    requires name != [] && name != "." && '/' !in name
    ensures BaseName(name) == name
  {
    SplitFree(name, '/');
  }

  /** Trailing slashes do not change the name. */
  lemma BaseNameTrailingSlash(p: string)
    ensures BaseName(p + "/") == BaseName(p)
  {
    assert p + "/" == p + ['/'] + [];
    SplitConcat(p, '/', []);
    KeptPartsAppend(Split(p, '/'), [[]]);
  }

  /** The suffix of `stem + ext` is `ext` when `ext` is a dot and a dot-free tail. */
  lemma SuffixOf(stem: string, ext: string)
    requires stem != [] && |ext| >= 2 && ext[0] == '.' && '.' !in ext[1..]
    ensures Suffix(stem + ext) == ext
  {
    var name := stem + ext;
    var i := LastIndexOf(name, '.');
    assert name[|stem|] == '.';
    forall j | |stem| < j < |name| ensures name[j] != '.' {
      assert name[j] == ext[1..][j - |stem| - 1];
    }
    assert i == |stem|;
    assert name[i..] == ext;
  }

  /** `Path(p).suffix.lower()`. */
  function Extension(p: string): string {
    LowerAscii(Suffix(BaseName(p)))
  }

  // ---------------------------------------------------------------------
  // The detector
  // ---------------------------------------------------------------------

  /**
   * `is_image_file`: a `file:///` URL is percent-decoded after its
   * eight-character prefix; either way the extension of the resulting path,
   * lower-cased, must be one of the nine image extensions. The model is
   * total, as `is_image_file`'s `except Exception` answering false makes it.
   */
  predicate IsImageFile(p: string) {
    var path := if StartsWith(p, FileScheme) then Unquote(p[|FileScheme|..]) else p;
    Extension(path) in ImageExtensions
  }

  /** A text with a `/` in its sixth place cannot carry the `file:///` prefix unless it has one there. */
  lemma NoSlashNoScheme(p: string)
    requires '/' !in p
    ensures !StartsWith(p, FileScheme)
  {
    if |p| >= |FileScheme| {
      assert p[5] != '/';
    }
  }

  /**
   * A bare file name whose extension, lower-cased, is an image extension is
   * an image file.
   */
  lemma ImageNameDetected(stem: string, ext: string)
    requires stem != [] && '/' !in stem && '/' !in ext
    requires |ext| >= 2 && ext[0] == '.' && '.' !in ext[1..]
    requires LowerAscii(ext) in ImageExtensions
    ensures IsImageFile(stem + ext)
  {
    PlainNameExtension(stem, ext);
  }

  /** A bare file name is no `file:///` URL, and its extension is its lower-cased suffix. */
  lemma PlainNameExtension(stem: string, ext: string)
    requires stem != [] && '/' !in stem && '/' !in ext
    requires |ext| >= 2 && ext[0] == '.' && '.' !in ext[1..]
    ensures !StartsWith(stem + ext, FileScheme)
    ensures IsImageFile(stem + ext) <==> LowerAscii(ext) in ImageExtensions
  {
    var name := stem + ext;
    NoSlashNoScheme(name);
    assert name[|stem|] == '.';
    BaseNameOfName(name);
    SuffixOf(stem, ext);
  }

  /** The same name in any directory is an image file too. */
  lemma ImagePathDetected(dir: string, stem: string, ext: string)
    requires stem != [] && '/' !in stem && '/' !in ext
    requires |ext| >= 2 && ext[0] == '.' && '.' !in ext[1..]
    requires LowerAscii(ext) in ImageExtensions
    requires !StartsWith(dir + "/" + (stem + ext), FileScheme)
    ensures IsImageFile(dir + "/" + (stem + ext))
  {
    var name := stem + ext;
    assert name[|stem|] == '.';
    BaseNameJoin(dir, name);
    SuffixOf(stem, ext);
  }

  /** A file name without any dot has no suffix, so it is never an image file. */
  lemma DotlessNotImage(p: string)
    requires p != [] && '/' !in p && '.' !in p
    ensures !IsImageFile(p)
  {
    NoSlashNoScheme(p);
    BaseNameOfName(p);
    assert Suffix(p) == [];
  }

  /**
   * Without percent escapes the `file:///` prefix changes nothing: the
   * URL names an image file exactly when the path after it has an image
   * extension.
   */
  lemma FileUrlExtension(rest: string)
    requires '%' !in rest
    ensures IsImageFile(FileScheme + rest) <==> Extension(rest) in ImageExtensions
  {
    var t := FileScheme + rest;
    assert t[..|FileScheme|] == FileScheme;
    assert t[|FileScheme|..] == rest;
    UnquoteWithoutPercent(rest);
  }

  /**
   * `extract_file_path`: the percent-decoded remainder of a `file:///` URL,
   * and nothing for any other text.
   */
  function ExtractFilePath(text: string): (r: Option<string>)
    ensures r.None? <==> !StartsWith(text, FileScheme)
    ensures r.Some? ==> |r.value| <= |text| - |FileScheme|
  {
    if StartsWith(text, FileScheme) then Some(Unquote(text[|FileScheme|..])) else None
  }

  /** A path percent-encoded behind `file:///` is extracted exactly. */
  lemma ExtractEncodedPath(path: string)
    requires forall i :: 0 <= i < |path| ==> IsByteChar(path[i])
    ensures ExtractFilePath(FileScheme + PercentEncode(path)) == Some(path)
  {
    var t := FileScheme + PercentEncode(path);
    assert t[..|FileScheme|] == FileScheme;
    assert t[|FileScheme|..] == PercentEncode(path);
    UnquotePercentEncode(path);
  }
}
