/** The upload filter: `allowed_file` accepts a file name when the text after
    its last `.`, lower-cased, is one of the whitelisted image extensions. */
module Upload {
  import opened Wrappers

  /** The configured whitelist `ALLOWED_EXTENSIONS`. */
  const AllowedExtensions: set<string> := {"png", "jpg", "jpeg", "gif"}

  /** The separator `allowed_file` splits on. */
  const Dot: char := '.'

  /** Index of the last occurrence of `c` in `s`, or None when there is none. */
  function LastIndexOf(s: string, c: char): (r: Option<nat>)
    ensures r.None? <==> c !in s
    ensures r.Some? ==> r.value < |s| && s[r.value] == c && c !in s[r.value + 1..]
  {
    if |s| == 0 then None
    else if s[|s| - 1] == c then Some(|s| - 1)
    else
      var r := LastIndexOf(s[..|s| - 1], c);
      assert r.Some? ==> s[r.value + 1..] == s[..|s| - 1][r.value + 1..] + [s[|s| - 1]];
      assert s == s[..|s| - 1] + [s[|s| - 1]];
      r
  }

  /** Python's `s.rsplit(sep, 1)`: one part when `sep` does not occur,
      otherwise the text before and after the last `sep`. */
  function RSplitOnce(s: string, sep: char): (parts: seq<string>)
    ensures 1 <= |parts| <= 2
    ensures |parts| == 1 <==> sep !in s
    ensures |parts| == 1 ==> parts[0] == s
    ensures |parts| == 2 ==> parts[0] + [sep] + parts[1] == s && sep !in parts[1]
  {
    match LastIndexOf(s, sep)
    case None => [s]
    case Some(i) =>
      assert s == s[..i] + [sep] + s[i + 1..];
      [s[..i], s[i + 1..]]
  }

  /** `str.lower()` on one character: ASCII capitals become small letters. */
  function LowerChar(c: char): char
  {
    if 'A' <= c <= 'Z' then (c as int - 'A' as int + 'a' as int) as char else c
  }

  /** ASCII upper-casing of one character: small letters a-z become capitals,
      everything else is kept. Used only to state case-insensitivity. */
  function UpperChar(c: char): char
  {
    if 'a' <= c <= 'z' then (c as int - 'a' as int + 'A' as int) as char else c
  }

  /** `str.lower()`: every capital A-Z becomes its small letter, every other
      character is kept, so no capital letter is left. */
  function Lower(s: string): (r: string)
    ensures |r| == |s|
    ensures forall i :: 0 <= i < |r| ==> !('A' <= r[i] <= 'Z')
  {
    seq(|s|, i requires 0 <= i < |s| => LowerChar(s[i]))
  }

  /** ASCII upper-casing of a string: every small letter a-z becomes its
      capital, every other character is kept. */
  function Upper(s: string): (r: string)
    ensures |r| == |s|
    ensures forall i :: 0 <= i < |r| ==> !('a' <= r[i] <= 'z')
  {
    seq(|s|, i requires 0 <= i < |s| => UpperChar(s[i]))
  }

  /** What `Lower` does to each character: a capital A-Z becomes its small
      letter (32 code points further on) and every other character is kept. */
  lemma LowerPointwise(s: string)
    ensures forall i :: 0 <= i < |s| && !('A' <= s[i] <= 'Z') ==> Lower(s)[i] == s[i]
    ensures forall i :: 0 <= i < |s| && 'A' <= s[i] <= 'Z' ==> Lower(s)[i] as int == s[i] as int + 32
  {
  }

  /** What `Upper` does to each character: a small letter a-z becomes its
      capital and every other character is kept. */
  lemma UpperPointwise(s: string)
    ensures forall i :: 0 <= i < |s| && !('a' <= s[i] <= 'z') ==> Upper(s)[i] == s[i]
    ensures forall i :: 0 <= i < |s| && 'a' <= s[i] <= 'z' ==> Upper(s)[i] as int == s[i] as int - 32
  {
  }

  /** Lower-casing loses only case: upper-casing the result gives the same
      text as upper-casing the input. */
  lemma LowerKeepsLetters(s: string)
    ensures Upper(Lower(s)) == Upper(s)
  {
  }

  /** `allowed_file`: the name holds a dot and the lower-cased text after the
      last dot is whitelisted. The conjunction short-circuits as in Python, so
      the second part is only evaluated when the split produced two parts. */
  function AllowedFile(filename: string): (ok: bool)
    ensures ok ==> Dot in filename
  {
    Dot in filename && Lower(RSplitOnce(filename, Dot)[1]) in AllowedExtensions
  }

  /** Reference definition: some dot in the name is the last one, and the text
      after it, lower-cased, is a whitelisted extension. */
  ghost predicate HasAllowedExtension(filename: string)
  {
    exists i :: 0 <= i < |filename| && filename[i] == Dot
      && Dot !in filename[i + 1..]
      && Lower(filename[i + 1..]) in AllowedExtensions
  }

  /** Splitting a joined name recovers its parts when the suffix holds no
      separator: `rsplit` is the inverse of joining at the last separator. */
  lemma RSplitOnceOfJoin(prefix: string, suffix: string, sep: char)
    requires sep !in suffix
    ensures RSplitOnce(prefix + [sep] + suffix, sep) == [prefix, suffix]
  {
    var s := prefix + [sep] + suffix;
    assert s[|prefix|] == sep;
    assert s[..|prefix|] == prefix && s[|prefix| + 1..] == suffix;
  }

  /** An accepted name has a last dot followed by a whitelisted extension. */
  lemma AcceptedHasAllowedExtension(filename: string)
    requires AllowedFile(filename)
    ensures HasAllowedExtension(filename)
  {
    var parts := RSplitOnce(filename, Dot);
    var i := |parts[0]|;
    assert filename[i] == Dot && filename[i + 1..] == parts[1];
  }

  /** A name with a last dot followed by a whitelisted extension is accepted. */
  lemma HasAllowedExtensionAccepted(filename: string)
    requires HasAllowedExtension(filename)
    ensures AllowedFile(filename)
  {
    var i :| 0 <= i < |filename| && filename[i] == Dot
      && Dot !in filename[i + 1..]
      && Lower(filename[i + 1..]) in AllowedExtensions;
    var prefix, suffix := filename[..i], filename[i + 1..];
    assert filename == prefix + [Dot] + suffix;
    RSplitOnceOfJoin(prefix, suffix, Dot);
  }

  /** `allowed_file` agrees with the reference definition on every name. */
  lemma AllowedFileMatchesReference(filename: string)
    ensures AllowedFile(filename) <==> HasAllowedExtension(filename)
  {
    if AllowedFile(filename) {
      AcceptedHasAllowedExtension(filename);
    }
    if HasAllowedExtension(filename) {
      HasAllowedExtensionAccepted(filename);
    }
  }

  /** Only the final extension matters: whatever precedes the last dot, the
      verdict is the whitelist test on the dot-free suffix. */
  lemma LastExtensionOnly(prefix: string, suffix: string)
    requires Dot !in suffix
    ensures AllowedFile(prefix + [Dot] + suffix) <==> Lower(suffix) in AllowedExtensions
    ensures AllowedFile(prefix + [Dot] + suffix) == AllowedFile("x." + suffix)
  {
    RSplitOnceOfJoin(prefix, suffix, Dot);
    RSplitOnceOfJoin("x", suffix, Dot);
    assert "x." + suffix == "x" + [Dot] + suffix;
  }

  /** A name ending in a dot has an empty extension and is rejected. */
  lemma TrailingDotRejected(prefix: string)
    ensures !AllowedFile(prefix + [Dot])
  {
    LastExtensionOnly(prefix, "");
    assert prefix + [Dot] + "" == prefix + [Dot];
    assert Lower("") == "";
  }

  /** Two strings with the separator at the same positions have the same last
      separator. */
  lemma {:induction false} LastIndexOfSamePositions(a: string, b: string, c: char)
    requires |a| == |b|
    requires forall i :: 0 <= i < |a| ==> (a[i] == c <==> b[i] == c)
    ensures LastIndexOf(a, c) == LastIndexOf(b, c)
    decreases |a|
  {
    if |a| > 0 && a[|a| - 1] != c {
      LastIndexOfSamePositions(a[..|a| - 1], b[..|b| - 1], c);
    }
  }

  /** Lower-casing commutes with taking a suffix. */
  lemma LowerSuffix(s: string, i: nat)
    requires i <= |s|
    ensures Lower(s[i..]) == Lower(s)[i..]
  {
  }

  /** Lower-casing twice is the same as lower-casing once. */
  lemma LowerIdempotent(s: string)
    ensures Lower(Lower(s)) == Lower(s)
  {
  }

  /** Once the last dot is known, the verdict is the whitelist test on the
      lower-cased text after it. */
  lemma AllowedFileAtLastDot(filename: string, i: nat)
    requires LastIndexOf(filename, Dot) == Some(i)
    ensures AllowedFile(filename) == (Lower(filename[i + 1..]) in AllowedExtensions)
  {
    assert RSplitOnce(filename, Dot)[1] == filename[i + 1..];
  }

  /** The extension check is case-insensitive: a name and its lower-cased
      form get the same verdict. */
  lemma {:induction false} AllowedFileOnlySeesLowerCase(filename: string)
    ensures AllowedFile(Lower(filename)) == AllowedFile(filename)
  {
    var low := Lower(filename);
    assert LastIndexOf(low, Dot) == LastIndexOf(filename, Dot) by {
      LastIndexOfSamePositions(filename, low, Dot);
    }
    match LastIndexOf(filename, Dot)
    case None =>
      assert Dot !in filename && Dot !in low;
    case Some(i) =>
      assert Lower(low[i + 1..]) == Lower(filename[i + 1..]) by {
        LowerSuffix(filename, i + 1);
        LowerIdempotent(low[i + 1..]);
      }
      AllowedFileAtLastDot(filename, i);
      AllowedFileAtLastDot(low, i);
  }

  /** Two names that lower-case to the same text get the same verdict, so
      changing the case of any letters, as in `X.PNG` and `x.png`, changes
      nothing. */
  lemma CaseInsensitive(f: string, g: string)
    requires Lower(f) == Lower(g)
    ensures AllowedFile(f) == AllowedFile(g)
  {
    AllowedFileOnlySeesLowerCase(f);
    AllowedFileOnlySeesLowerCase(g);
  }

  /** ASCII upper-casing a name does not change its verdict. */
  lemma UpperCaseInvariant(filename: string)
    ensures AllowedFile(Upper(filename)) == AllowedFile(filename)
  {
    assert Lower(Upper(filename)) == Lower(filename);
    CaseInsensitive(Upper(filename), filename);
  }

  /** Names without a dot, the empty name included, are rejected. */
  lemma NoDotExamples()
    ensures !AllowedFile("")
    ensures !AllowedFile("png")
  {
    assert Dot !in "png";
  }

  /** `a.exe.png` is accepted: the earlier `.exe` is ignored. */
  lemma ExampleExeThenPng()
    ensures AllowedFile("a.exe.png")
  {
    var name := "a.exe" + [Dot] + "png";
    assert AllowedFile(name) by {
      assert "png" in AllowedExtensions;
      assert Lower("png") == "png";
      LastExtensionOnly("a.exe", "png");
    }
    assert name == "a.exe.png";
  }

  /** `a.png.exe` is rejected: only the last extension counts. */
  lemma ExamplePngThenExe()
    ensures !AllowedFile("a.png.exe")
  {
    var name := "a.png" + [Dot] + "exe";
    assert !AllowedFile(name) by {
      assert "exe" !in AllowedExtensions;
      assert Lower("exe") == "exe";
      LastExtensionOnly("a.png", "exe");
    }
    assert name == "a.png.exe";
  }

  /** Upper-case and mixed-case extensions are accepted: `X.PNG` like
      `x.png`, and `scan.JpEg` like `scan.jpeg`. */
  lemma CaseExamples()
    ensures AllowedFile("X.PNG")
    ensures AllowedFile("scan.JpEg")
  {
    var upper := "X" + [Dot] + "PNG";
    assert AllowedFile(upper) by {
      assert Lower("PNG") == "png";
      LastExtensionOnly("X", "PNG");
    }
    assert upper == "X.PNG";
    var mixed := "scan" + [Dot] + "JpEg";
    assert AllowedFile(mixed) by {
      assert Lower("JpEg") == "jpeg";
      LastExtensionOnly("scan", "JpEg");
    }
    assert mixed == "scan.JpEg";
  }
}
