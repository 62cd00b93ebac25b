/** TemplateFileService.NormalizeFileName: the one file name a user-supplied
    template name maps to, or the reason it is refused. The platform the
    service is compiled for is the parameter `windows`: it decides the path
    syntax, the invalid characters and whether device names are reserved. */
module TemplateFileService {
  import opened Wrappers
  import opened Text

  /** The InvalidOperationException messages, one constructor each. */
  datatype NameError =
    | Required           // "File name is required."
    | InvalidCharacters  // "File name contains invalid characters."
    | ReservedName       // "File name is reserved on Windows."

  const HtmlExtension: string := ".html"
  const HtmExtension: string := ".htm"

  // ---------------------------------------------------------------------
  // Path syntax (System.IO.Path)
  // ---------------------------------------------------------------------

  predicate IsDirectorySeparator(c: char, windows: bool) {
    c == '/' || (windows && c == '\\')
  }

  predicate IsAsciiLetter(c: char) {
    'A' <= c <= 'Z' || 'a' <= c <= 'z'
  }

  /** The length of the path root that is not itself a separator: a drive
      "X:" on Windows, nothing otherwise. */
  function DriveLength(path: string, windows: bool): (n: nat)
    ensures n <= |path|
  {
    if windows && |path| >= 2 && path[1] == ':' && IsAsciiLetter(path[0]) then 2 else 0
  }

  /** The index just after the last separator in path[root..i], or root when
      there is none. */
  function FileNameStartFrom(path: string, root: nat, i: nat, windows: bool): (j: nat)
    requires root <= i <= |path|
    ensures root <= j <= i
    ensures j == root || IsDirectorySeparator(path[j - 1], windows)
    ensures forall k :: j <= k < i ==> !IsDirectorySeparator(path[k], windows)
    decreases i
  {
    if i == root then root
    else if IsDirectorySeparator(path[i - 1], windows) then i
    else FileNameStartFrom(path, root, i - 1, windows)
  }

  /** Path.GetFileName: what follows the last separator and the drive. */
  function GetFileName(path: string, windows: bool): (r: string)
    ensures |r| <= |path| && r == path[|path| - |r|..]
    ensures forall k :: 0 <= k < |r| ==> !IsDirectorySeparator(r[k], windows)
    ensures |path| - |r| >= DriveLength(path, windows)
    ensures |r| < |path| ==>
      |path| - |r| == DriveLength(path, windows) || IsDirectorySeparator(path[|path| - |r| - 1], windows)
  {
    var start := FileNameStartFrom(path, DriveLength(path, windows), |path|, windows);
    assert forall k :: 0 <= k < |path| - start ==> path[start..][k] == path[start + k];
    path[start..]
  }

  /** Path.GetInvalidFileNameChars, in the order .NET returns them. */
  function InvalidFileNameChars(windows: bool): seq<char> {
    if windows then
      ['"', '<', '>', '|', 0 as char] + seq(31, k requires 0 <= k < 31 => (k + 1) as char) + [':', '*', '?', '\\', '/']
    else
      [0 as char, '/']
  }

  /** The same characters as a test on one character. */
  predicate IsInvalidFileNameChar(c: char, windows: bool) {
    if windows then
      c as int < 32 || c == '"' || c == '<' || c == '>' || c == '|' || c == ':' || c == '*' || c == '?' || c == '\\' || c == '/'
    else
      c == 0 as char || c == '/'
  }

  lemma InvalidFileNameCharsAgree(c: char, windows: bool)
    ensures c in InvalidFileNameChars(windows) <==> IsInvalidFileNameChar(c, windows)
  {
    var chars := InvalidFileNameChars(windows);
    if windows && c as int < 32 && c != 0 as char {
      assert chars[4 + c as int] == c;
    }
  }

  predicate HasInvalidChar(name: string, windows: bool) {
    exists k :: 0 <= k < |name| && IsInvalidFileNameChar(name[k], windows)
  }

  /** The index of the last '.', if any. */
  function LastDot(s: string): (r: Option<nat>)
    ensures r.Some? ==> r.value < |s| && s[r.value] == '.'
    ensures forall k :: (if r.Some? then r.value + 1 else 0) <= k < |s| ==> s[k] != '.'
  {
    if s == [] then None
    else if s[|s| - 1] == '.' then Some(|s| - 1)
    else LastDot(s[..|s| - 1])
  }

  /** Path.GetFileNameWithoutExtension. */
  function GetFileNameWithoutExtension(path: string, windows: bool): string {
    var name := GetFileName(path, windows);
    match LastDot(name)
    case None => name
    case Some(k) => name[..k]
  }

  const ReservedNames: set<string> := {
    "CON", "PRN", "AUX", "NUL",
    "COM1", "COM2", "COM3", "COM4", "COM5", "COM6", "COM7", "COM8", "COM9",
    "LPT1", "LPT2", "LPT3", "LPT4", "LPT5", "LPT6", "LPT7", "LPT8", "LPT9"
  }

  function ToUpperAsciiString(s: string): (r: string)
    ensures |r| == |s| && forall k :: 0 <= k < |s| ==> r[k] == ToUpperAscii(s[k])
  {
    seq(|s|, k requires 0 <= k < |s| => ToUpperAscii(s[k]))
  }

  /** Membership in the reserved set under OrdinalIgnoreCase; the names in
      the set are upper case already. */
  predicate IsReserved(stem: string) {
    ToUpperAsciiString(stem) in ReservedNames
  }

  // ---------------------------------------------------------------------
  // The normaliser
  // ---------------------------------------------------------------------

  /** The extension rule: ".htm" becomes ".html", any other name that does
      not end in ".html" gets it appended, in either case ignoring case. */
  function WithHtmlExtension(name: string): (r: string)
    ensures EndsWithIgnoreCase(r, HtmlExtension)
    ensures EndsWithIgnoreCase(name, HtmlExtension) ==> r == name
    ensures EndsWithIgnoreCase(name, HtmExtension) && !EndsWithIgnoreCase(name, HtmlExtension) ==>
      r == name[..|name| - 4] + HtmlExtension
    ensures !EndsWithIgnoreCase(name, HtmExtension) && !EndsWithIgnoreCase(name, HtmlExtension) ==>
      r == name + HtmlExtension
  {
    if EndsWithIgnoreCase(name, HtmExtension) && !EndsWithIgnoreCase(name, HtmlExtension) then
      var r := name[..|name| - 4] + HtmlExtension;
      assert r[|r| - 5..] == HtmlExtension;
      r
    else if !EndsWithIgnoreCase(name, HtmlExtension) then
      var r := name + HtmlExtension;
      assert r[|r| - 5..] == HtmlExtension;
      r
    else name
  }

  /** The two checks on the final name, in NormalizeFileName's order. */
  function CheckName(name: string, windows: bool): Result<string, NameError> {
    if HasInvalidChar(name, windows) then Failure(InvalidCharacters)
    else if windows && IsReserved(GetFileNameWithoutExtension(name, windows)) then Failure(ReservedName)
    else Success(name)
  }

  /** What NormalizeFileName computes, stage by stage. */
  function Normalize(input: Option<string>, windows: bool): Result<string, NameError> {
    var trimmed := Trim(input.GetOr(""));
    if IsNullOrWhiteSpace(Some(trimmed)) then Failure(Required)
    else CheckName(WithHtmlExtension(GetFileName(trimmed, windows)), windows)
  }

  /** NormalizeFileName: `name` is reassigned stage by stage, and the
      invalid characters are tried one by one with an early exit. */
  method NormalizeFileName(input: Option<string>, windows: bool) returns (r: Result<string, NameError>)
    ensures r == Normalize(input, windows)
    ensures IsNullOrWhiteSpace(input) ==> r == Failure(Required)
    ensures r.Success? ==> EndsWithIgnoreCase(r.value, HtmlExtension) && !HasInvalidChar(r.value, windows)
  {
    NormalizeRequired(input, windows);
    if Normalize(input, windows).Success? {
      NormalizedShape(input, windows);
    }
    var name := Trim(input.GetOr(""));
    if IsNullOrWhiteSpace(Some(name)) {
      return Failure(Required);
    }
    name := GetFileName(name, windows);
    if EndsWithIgnoreCase(name, HtmExtension) && !EndsWithIgnoreCase(name, HtmlExtension) {
      name := name[..|name| - 4] + HtmlExtension;
    } else if !EndsWithIgnoreCase(name, HtmlExtension) {
      name := name + HtmlExtension;
    }
    assert name == WithHtmlExtension(GetFileName(Trim(input.GetOr("")), windows));

    var found := ContainsInvalidChar(name, windows);
    if found {
      return Failure(InvalidCharacters);
    }

    if windows {
      var stem := GetFileNameWithoutExtension(name, windows);
      if IsReserved(stem) {
        return Failure(ReservedName);
      }
    }
    return Success(name);
  }

  /** The foreach over Path.GetInvalidFileNameChars, stopping at the first
      character the name contains. */
  method ContainsInvalidChar(name: string, windows: bool) returns (found: bool)
    ensures found <==> HasInvalidChar(name, windows)
  {
    var invalid := InvalidFileNameChars(windows);
    var i := 0;
    while i < |invalid|
      invariant 0 <= i <= |invalid|
      invariant forall j :: 0 <= j < i ==> invalid[j] !in name
    {
      if invalid[i] in name {
        InvalidCharFound(name, invalid[i], windows);
        return true;
      }
      i := i + 1;
    }
    NoInvalidCharFound(name, windows);
    return false;
  }

  lemma InvalidCharFound(name: string, c: char, windows: bool)
    requires c in InvalidFileNameChars(windows) && c in name
    ensures HasInvalidChar(name, windows)
  {
    InvalidFileNameCharsAgree(c, windows);
    var k :| 0 <= k < |name| && name[k] == c;
  }

  lemma NoInvalidCharFound(name: string, windows: bool)
    requires forall j :: 0 <= j < |InvalidFileNameChars(windows)| ==> InvalidFileNameChars(windows)[j] !in name
    ensures !HasInvalidChar(name, windows)
  {
    forall k | 0 <= k < |name| ensures !IsInvalidFileNameChar(name[k], windows) {
      InvalidFileNameCharsAgree(name[k], windows);
    }
  }

  // ---------------------------------------------------------------------
  // Properties
  // ---------------------------------------------------------------------

  /** "File name is required." is raised exactly for null, empty and
      white-space-only input. */
  lemma NormalizeRequired(input: Option<string>, windows: bool)
    ensures Normalize(input, windows) == Failure(Required) <==> IsNullOrWhiteSpace(Some(input.GetOr("")))
  {
    var trimmed := Trim(input.GetOr(""));
    TrimEmptyIff(input.GetOr(""));
    TrimmedBlankIffEmpty(input.GetOr(""));
    if !IsNullOrWhiteSpace(Some(trimmed)) {
      assert CheckName(WithHtmlExtension(GetFileName(trimmed, windows)), windows) != Failure(Required);
    }
  }

  /** On Windows a name is refused as reserved exactly when the part before
      ".html", upper-cased, is a device name; elsewhere no name is. */
  lemma ReservedExactlyDeviceNames(name: string, windows: bool)
    requires EndsWithIgnoreCase(name, HtmlExtension) && !HasInvalidChar(name, windows)
    ensures CheckName(name, windows) == Failure(ReservedName) <==>
      windows && ToUpperAsciiString(name[..|name| - 5]) in ReservedNames
    ensures CheckName(name, windows).Success? ==> CheckName(name, windows).value == name
  {
    if windows {
      assert forall k :: 0 <= k < |name| ==> !IsInvalidFileNameChar(name[k], windows);
      StemOfHtmlName(name, windows);
    }
  }

  lemma {:induction false} LastDotAt(s: string, i: nat)
    requires i < |s| && s[i] == '.'
    requires forall k :: i < k < |s| ==> s[k] != '.'
    ensures LastDot(s) == Some(i)
    decreases |s|
  {
    if i < |s| - 1 {
      LastDotAt(s[..|s| - 1], i);
    }
  }

  lemma HtmlExtensionDot(j: nat)
    requires j < 5
    ensures HtmlExtension[j] == '.' <==> j == 0
  {
    if j == 0 {} else if j == 1 {} else if j == 2 {} else if j == 3 {} else {}
  }

  /** The stem of a file name ending in ".html" is everything before it. */
  lemma StemOfHtmlName(name: string, windows: bool)
    requires EndsWithIgnoreCase(name, HtmlExtension)
    requires forall k :: 0 <= k < |name| ==> !IsDirectorySeparator(name[k], windows)
    requires windows ==> ':' !in name
    ensures GetFileNameWithoutExtension(name, windows) == name[..|name| - 5]
  {
    assert GetFileName(name, windows) == name by {
      FileNameOfPlainName(name, windows);
    }
    assert LastDot(name) == Some(|name| - 5) by {
      HtmlSuffixDots(name);
      LastDotAt(name, |name| - 5);
    }
  }

  /** In a name ending in ".html" the extension holds exactly one '.'. */
  lemma HtmlSuffixDots(name: string)
    requires EndsWithIgnoreCase(name, HtmlExtension)
    ensures forall k :: |name| - 5 <= k < |name| ==> (name[k] == '.' <==> k == |name| - 5)
  {
    var n := |name| - 5;
    var ext := name[n..];
    forall k | n <= k < |name| ensures name[k] == '.' <==> k == n {
      var j := k - n;
      assert name[k] == ext[j];
      assert ToUpperAscii(ext[j]) == ToUpperAscii(HtmlExtension[j]);
      assert ToUpperAscii(name[k]) == '.' <==> name[k] == '.';
      assert ToUpperAscii(HtmlExtension[j]) == '.' <==> HtmlExtension[j] == '.';
      HtmlExtensionDot(j);
    }
  }

  /** The reserved check of a normalised name looks at everything before
      its extension. */
  lemma NormalizedStem(input: Option<string>, windows: bool)
    requires Normalize(input, windows).Success?
    ensures var name := Normalize(input, windows).value;
      GetFileNameWithoutExtension(name, windows) == name[..|name| - 5]
  {
    var name := Normalize(input, windows).value;
    NormalizedShape(input, windows);
    StemOfHtmlName(name, windows);
  }

  /** A result ends with ".html", holds no invalid character, and so no
      separator and (on Windows) no drive colon. */
  lemma NormalizedShape(input: Option<string>, windows: bool)
    requires Normalize(input, windows).Success?
    ensures var name := Normalize(input, windows).value;
      && EndsWithIgnoreCase(name, HtmlExtension)
      && !HasInvalidChar(name, windows)
      && (forall k :: 0 <= k < |name| ==> !IsDirectorySeparator(name[k], windows))
      && (windows ==> ':' !in name)
  {
    var trimmed := Trim(input.GetOr(""));
    var candidate := WithHtmlExtension(GetFileName(trimmed, windows));
    assert Normalize(input, windows) == CheckName(candidate, windows);
    CheckedNameShape(candidate, windows);
  }

  lemma CheckedNameShape(name: string, windows: bool)
    requires CheckName(name, windows).Success?
    ensures CheckName(name, windows).value == name && !HasInvalidChar(name, windows)
    ensures forall k :: 0 <= k < |name| ==> !IsDirectorySeparator(name[k], windows)
    ensures windows ==> ':' !in name
  {
    assert forall k :: 0 <= k < |name| ==> !IsInvalidFileNameChar(name[k], windows);
  }

  /** GetFileName leaves a name with no separator and no drive alone. */
  lemma FileNameOfPlainName(name: string, windows: bool)
    requires forall k :: 0 <= k < |name| ==> !IsDirectorySeparator(name[k], windows)
    requires windows ==> ':' !in name
    ensures GetFileName(name, windows) == name
  {
    if windows && |name| >= 2 {
      assert name[1] != ':';
    }
  }

  /** Re-normalising a result changes nothing, provided the result does not
      start with white space (which the first Trim would then remove). */
  lemma NormalizeIdempotent(input: Option<string>, windows: bool)
    requires Normalize(input, windows).Success?
    requires !IsWhiteSpace(Normalize(input, windows).value[0])
    ensures Normalize(Some(Normalize(input, windows).value), windows) == Normalize(input, windows)
  {
    var name := Normalize(input, windows).value;
    NormalizedShape(input, windows);
    var trimmed := Trim(input.GetOr(""));
    assert Normalize(input, windows) == CheckName(name, windows) by {
      assert Normalize(input, windows) == CheckName(WithHtmlExtension(GetFileName(trimmed, windows)), windows);
    }
    NormalizePlainName(name, windows);
  }

  /** A name that already has the final shape passes the first stages
      untouched, so only the two checks apply. */
  lemma NormalizePlainName(name: string, windows: bool)
    requires EndsWithIgnoreCase(name, HtmlExtension) && !IsWhiteSpace(name[0])
    requires forall k :: 0 <= k < |name| ==> !IsDirectorySeparator(name[k], windows)
    requires windows ==> ':' !in name
    ensures Normalize(Some(name), windows) == CheckName(name, windows)
  {
    assert ToUpperAscii(name[|name| - 1]) == 'L' by {
      assert name[|name| - 1] == name[|name| - 5..][4];
    }
    TrimNoOp(name);
    TrimmedBlankIffEmpty(name);
    FileNameOfPlainName(name, windows);
    assert WithHtmlExtension(name) == name;
  }
}
