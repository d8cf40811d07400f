/** The few Python string operations the scripts rely on, on `string` = `seq<char>`. */
module Text {
  import opened Wrappers

  /** Position of the last occurrence of `ch` in `s`. */
  function LastIndexOf(s: string, ch: char): (r: Option<nat>)
    ensures r.None? <==> ch !in s
    ensures r.Some? ==> r.value < |s| && s[r.value] == ch && ch !in s[r.value + 1..]
    decreases |s|
  {
    if s == [] then None
    else if s[|s| - 1] == ch then Some(|s| - 1)
    else
      var r := LastIndexOf(s[..|s| - 1], ch);
      assert s == s[..|s| - 1] + [s[|s| - 1]];
      if r.Some? then
        assert s[r.value + 1..] == s[..|s| - 1][r.value + 1..] + [s[|s| - 1]];
        r
      else r
  }

  /** Python's `s.rsplit(sep, 1)`: the one-element list `[s]` when `sep` does not occur,
      otherwise the text before and the text after the last `sep`. */
  function RSplitOnce(s: string, sep: char): (parts: seq<string>)
    ensures 1 <= |parts| <= 2
    ensures |parts| == 1 <==> sep !in s
    ensures |parts| == 1 ==> parts[0] == s
    ensures |parts| == 2 ==> s == parts[0] + [sep] + parts[1] && sep !in parts[1]
  {
    match LastIndexOf(s, sep)
    case None => [s]
    case Some(k) =>
      assert s == s[..k] + [sep] + s[k + 1..];
      [s[..k], s[k + 1..]]
  }

  /** Python's `s[:-k]` for a positive `k`: all but the last `k` characters, or "" when
      `s` is shorter. */
  function DropLast(s: string, k: nat): (r: string)
    requires k > 0
    ensures |r| == if |s| <= k then 0 else |s| - k
    ensures r <= s
  {
    if |s| <= k then [] else s[..|s| - k]
  }

  /** Characters for which Python's `str.isspace()` is true. */
  predicate IsSpace(c: char)
  {
    || c == ' ' || c == '\t' || c == '\n' || c == '\r' || c == '\U{0B}' || c == '\U{0C}'
    || ('\U{1C}' <= c <= '\U{1F}') || c == '\U{85}' || c == '\U{A0}' || c == '\U{1680}'
    || ('\U{2000}' <= c <= '\U{200A}') || c == '\U{2028}' || c == '\U{2029}'
    || c == '\U{202F}' || c == '\U{205F}' || c == '\U{3000}'
  }

  /** Number of leading whitespace characters. */
  function LeadingSpace(s: string): (n: nat)
    ensures n <= |s|
    ensures forall k :: 0 <= k < n ==> IsSpace(s[k])
    ensures n < |s| ==> !IsSpace(s[n])
    decreases |s|
  {
    if s != [] && IsSpace(s[0]) then 1 + LeadingSpace(s[1..]) else 0
  }

  /** Number of trailing whitespace characters. */
  function TrailingSpace(s: string): (n: nat)
    ensures n <= |s|
    ensures forall k :: |s| - n <= k < |s| ==> IsSpace(s[k])
    ensures n < |s| ==> !IsSpace(s[|s| - 1 - n])
    decreases |s|
  {
    if s != [] && IsSpace(s[|s| - 1]) then 1 + TrailingSpace(s[..|s| - 1]) else 0
  }

  /** Python's `s.strip()`: the slice of `s` left after cutting whitespace from both ends. */
  function Strip(s: string): (r: string)
    ensures |r| <= |s|
    ensures r != [] ==> !IsSpace(r[0]) && !IsSpace(r[|r| - 1])
    ensures LeadingSpace(s) + |r| <= |s| && r == s[LeadingSpace(s)..LeadingSpace(s) + |r|]
    ensures forall k :: LeadingSpace(s) + |r| <= k < |s| ==> IsSpace(s[k])
  {
    var i := LeadingSpace(s);
    var t := s[i..];
    var r := t[..|t| - TrailingSpace(t)];
    assert r != [] ==> r[0] == s[i];
    r
  }

  /** Stripping is idempotent: what `strip()` returns has nothing left to strip. */
  lemma StripIdempotent(s: string)
    ensures Strip(Strip(s)) == Strip(s)
  {
    var r := Strip(s);
    if r != [] {
      assert LeadingSpace(r) == 0;
      assert TrailingSpace(r) == 0;
    }
  }

  predicate IsDigitChar(c: char)
  {
    '0' <= c <= '9'
  }

  /** Python's `s.isdigit()` on decimal digits: non-empty and every character a digit. */
  predicate IsDigitString(s: string)
  {
    |s| > 0 && forall k :: 0 <= k < |s| ==> IsDigitChar(s[k])
  }

  function DigitChar(d: nat): (c: char)
    requires d < 10
    ensures IsDigitChar(c)
  {
    ['0', '1', '2', '3', '4', '5', '6', '7', '8', '9'][d]
  }

  /** The number a string of decimal digits denotes. */
  function DigitsValue(s: string): nat
    requires forall k :: 0 <= k < |s| ==> IsDigitChar(s[k])
    decreases |s|
  {
    if s == [] then 0
    else
      assert IsDigitChar(s[|s| - 1]);
      DigitsValue(s[..|s| - 1]) * 10 + (s[|s| - 1] as int - '0' as int)
  }

  /** Python's `str(n)` for a natural number: its decimal digits, without leading zeros. */
  function NatToString(n: nat): (s: string)
    ensures IsDigitString(s)
    ensures s[0] == '0' ==> s == "0"
    ensures DigitsValue(s) == n
    decreases n
  {
    if n < 10 then [DigitChar(n)]
    else
      var prefix := NatToString(n / 10);
      var s := prefix + [DigitChar(n % 10)];
      assert s[..|s| - 1] == prefix;
      s
  }

  /** Python's `str(i)` for an integer. */
  function IntToString(i: int): string
  {
    if i < 0 then "-" + NatToString(-i) else NatToString(i)
  }

  // ---------------------------------------------------------------------------------------
  // File names

  /** `s` ends with `suffix`. */
  predicate EndsWith(s: string, suffix: string)
  {
    |suffix| <= |s| && s[|s| - |suffix|..] == suffix
  }

  /** `of_format` (and its twin `file_is_of_format`): the text after the last '.' of `sourceFile` equals `dataFormat`;
      a name without any '.' makes `rsplit(".", 1)[1]` raise an IndexError. */
  function OfFormat(dataFormat: string, sourceFile: string): (r: Result<bool>)
    ensures r.Failure? <==> '.' !in sourceFile
    ensures r.Failure? ==> r.error == IndexError
    ensures r.Success? ==> (r.value <==> '.' !in dataFormat && EndsWith(sourceFile, "." + dataFormat))
  {
    var parts := RSplitOnce(sourceFile, '.');
    if |parts| < 2 then Failure(IndexError)
    else
      ExtensionIsSuffix(sourceFile, parts[0], parts[1], dataFormat);
      Success(parts[1] == dataFormat)
  }

  /** When `s` splits at its last '.' into `before` and `ext`, a dot-free `f` is the
      extension exactly when `s` ends in "." + f. */
  lemma ExtensionIsSuffix(s: string, before: string, ext: string, f: string)
    requires s == before + "." + ext && '.' !in ext
    ensures ext == f <==> '.' !in f && EndsWith(s, "." + f)
  {
    if '.' !in f && EndsWith(s, "." + f) {
      // q is the last dot (the split point), p the dot before the suffix f
      var p, q := |s| - |f| - 1, |before|;
      assert s[p] == '.';
      assert s[q] == '.';
      forall i | q < i < |s| ensures s[i] != '.' {
        assert s[i] == ext[i - q - 1];
      }
      forall i | p < i < |s| ensures s[i] != '.' {
        assert s[i] == f[i - p - 1];
      }
      assert p == q;
      assert ext == s[q + 1..] == f;
    }
  }

  /** The GeoTIFF check both scripts make: a name with a '.' is "of format tif" exactly when it
      ends in ".tif". */
  lemma TifExtension(sourceFile: string)
    requires '.' in sourceFile
    ensures OfFormat("tif", sourceFile) == Success(EndsWith(sourceFile, ".tif"))
  {
    assert "." + "tif" == ".tif";
  }
}
