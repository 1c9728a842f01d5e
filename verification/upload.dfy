/** Optional values, used where the source returns a "not found" answer. */
module Wrappers {

  datatype Option<+T> = None | Some(value: T)
}

/**
 `allowed_file` of the HTTP layer: a file name is accepted when it contains a
 dot and the text after its last dot, lower-cased, is one of five image
 extensions.
 */
module Upload {
  import opened Wrappers

  const AllowedExtensions: set<string> := {"png", "jpg", "jpeg", "bmp", "tiff"}

  /**
   Lower-casing of one character. Only A-Z is mapped; no other character
   lower-cases to a string made only of letters of the five extensions, so
   membership is unaffected.
   */
  function LowerChar(c: char): char {
    if 'A' <= c <= 'Z' then (c as int + 32) as char else c
  }

  function Lower(s: string): (r: string)
    ensures |r| == |s|
    ensures forall i :: 0 <= i < |s| ==> r[i] == LowerChar(s[i])
  {
    seq(|s|, i requires 0 <= i < |s| => LowerChar(s[i]))
  }

  /** Index of the last '.' among the first n characters of s, if any. */
  function LastDotBefore(s: string, n: nat): (r: Option<nat>)
    requires n <= |s|
    ensures r.None? <==> forall k :: 0 <= k < n ==> s[k] != '.'
    ensures r.Some? ==> r.value < n && s[r.value] == '.' && forall k :: r.value < k < n ==> s[k] != '.'
    decreases n
  {
    if n == 0 then None
    else if s[n - 1] == '.' then Some(n - 1)
    else LastDotBefore(s, n - 1)
  }

  /** Index of the last '.' in s, if any. */
  function LastDot(s: string): (r: Option<nat>)
    ensures r.None? <==> '.' !in s
    ensures r.Some? ==> r.value < |s| && s[r.value] == '.' && '.' !in s[r.value + 1..]
  {
    LastDotBefore(s, |s|)
  }

  /** `filename.rsplit('.', 1)[1]`: the text after the last dot, when there is a dot. */
  function Extension(filename: string): Option<string> {
    match LastDot(filename)
    case None => None
    case Some(i) => Some(filename[i + 1..])
  }

  function AllowedFile(filename: string): bool {
    match Extension(filename)
    case None => false
    case Some(ext) => Lower(ext) in AllowedExtensions
  }

  /** A name without a dot is rejected. */
  lemma NoDotRejected(filename: string)
    requires '.' !in filename
    ensures !AllowedFile(filename)
  {
  }

  /** Every name with a dot splits uniquely at its last dot into a stem and a dot-free extension. */
  lemma ExtensionSplit(filename: string)
    requires '.' in filename
    ensures Extension(filename).Some?
    ensures var i := |filename| - |Extension(filename).value| - 1;
      0 <= i && filename == filename[..i] + "." + Extension(filename).value
    ensures '.' !in Extension(filename).value
  {
    var i := LastDot(filename).value;
    assert filename == filename[..i] + "." + filename[i + 1..];
  }

  /** Whatever the stem (empty, or itself holding dots), only the dot-free extension decides. */
  lemma {:induction false} AllowedFileIff(stem: string, ext: string)
    requires '.' !in ext
    ensures AllowedFile(stem + "." + ext) <==> Lower(ext) in AllowedExtensions
  {
    var f := stem + "." + ext;
    assert f[|stem|] == '.';
    var i := LastDot(f).value;
    assert i == |stem|;
    assert f[i + 1..] == ext;
  }

  lemma {:induction false} LowerKeepsLastDotBefore(s: string, n: nat)
    requires n <= |s|
    ensures LastDotBefore(Lower(s), n) == LastDotBefore(s, n)
    decreases n
  {
    if n > 0 {
      assert Lower(s)[n - 1] == '.' <==> s[n - 1] == '.';
      LowerKeepsLastDotBefore(s, n - 1);
    }
  }

  lemma LowerKeepsLastDot(s: string)
    ensures LastDot(Lower(s)) == LastDot(s)
  {
    LowerKeepsLastDotBefore(s, |s|);
  }

  lemma LowerIdempotent(s: string)
    ensures Lower(Lower(s)) == Lower(s)
  {
  }

  lemma LowerSuffix(s: string, k: nat)
    requires k <= |s|
    ensures Lower(s)[k..] == Lower(s[k..])
  {
  }

  lemma LowerExtensionAt(filename: string, i: nat)
    requires LastDot(filename) == Some(i) && LastDot(Lower(filename)) == Some(i)
    ensures Extension(filename) == Some(filename[i + 1..])
    ensures Extension(Lower(filename)) == Some(Lower(filename[i + 1..]))
  {
    LowerSuffix(filename, i + 1);
  }

  /** Lower-casing a name lower-cases its extension and keeps a missing one missing. */
  lemma ExtensionOfLower(filename: string)
    ensures Extension(filename).None? ==> Extension(Lower(filename)).None?
    ensures Extension(filename).Some? ==> Extension(Lower(filename)) == Some(Lower(Extension(filename).value))
  {
    LowerKeepsLastDot(filename);
    var r := LastDot(filename);
    if r.Some? {
      LowerExtensionAt(filename, r.value);
    }
  }

  /** Acceptance ignores case: lower-casing the whole name first changes nothing. */
  lemma CaseInsensitive(filename: string)
    ensures AllowedFile(Lower(filename)) == AllowedFile(filename)
  {
    ExtensionOfLower(filename);
    var e := Extension(filename);
    if e.Some? {
      LowerIdempotent(e.value);
    }
  }

  /** An upper-case extension is accepted. */
  lemma UpperCaseAccepted()
    ensures AllowedFile("PLAN.PNG")
  {
    assert Lower("PNG") == "png";
    assert "PLAN.PNG" == "PLAN" + "." + "PNG";
    AllowedFileIff("PLAN", "PNG");
  }

  /** A stem holding dots, or no stem at all, does not matter. */
  lemma StemIgnored()
    ensures AllowedFile("a.tar.png")
    ensures AllowedFile(".png")
  {
    assert Lower("png") == "png";
    assert "a.tar.png" == "a.tar" + "." + "png";
    AllowedFileIff("a.tar", "png");
    assert ".png" == "" + "." + "png";
    AllowedFileIff("", "png");
  }

  /** Only the last extension counts: a known extension followed by another one is rejected. */
  lemma LastExtensionDecides()
    ensures !AllowedFile("plan.png.exe")
  {
    assert Lower("exe") == "exe";
    assert "exe" !in AllowedExtensions;
    assert "plan.png.exe" == "plan.png" + "." + "exe";
    AllowedFileIff("plan.png", "exe");
  }

  /** Extensions outside the five are rejected, including the short form of tiff. */
  lemma NearMissExtensions()
    ensures !AllowedFile("x.tif")
    ensures !AllowedFile("x.gif")
  {
    assert Lower("tif") == "tif";
    assert "tif" !in AllowedExtensions;
    assert "x.tif" == "x" + "." + "tif";
    AllowedFileIff("x", "tif");
    assert Lower("gif") == "gif";
    assert "gif" !in AllowedExtensions;
    assert "x.gif" == "x" + "." + "gif";
    AllowedFileIff("x", "gif");
  }

  /** A trailing dot gives an empty extension; a name without a dot has none. */
  lemma DotEdgeExamples()
    ensures !AllowedFile("plan.") && !AllowedFile("plan")
  {
    assert "plan." == "plan" + "." + "";
    AllowedFileIff("plan", "");
    NoDotRejected("plan");
  }
}
