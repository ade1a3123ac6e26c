/** Optional values: the model's stand-in for JavaScript's `null` / `undefined`. */
module Options {
  datatype Option<+T> = None | Some(value: T)
}

/**
 * URL validation of the build tracker (`isValidUrl`, script.js:67-71).
 *
 * The string is trimmed with JavaScript's `String.prototype.trim`, which is
 * written out here, and then handed to the browser's `URL` parser. That parser
 * is foreign code: it is a parameter of the model, a total function that
 * gives the parsed URL's `protocol` or `None` when the constructor throws.
 */
module Urls {
  import opened Options

  /** The browser's URL parser: `Some(protocol)` on success, `None` when it throws. */
  type UrlParser = string -> Option<string>

  /**
   * The code points `String.prototype.trim` removes: ECMAScript WhiteSpace
   * (TAB, VT, FF, SPACE, NBSP, ZWNBSP and the Zs category) and LineTerminator
   * (LF, CR, LS, PS).
   */
  predicate IsJsWhitespace(c: char) {
    c == '\t' || c == '\n' || c == '\U{0B}' || c == '\U{0C}' || c == '\r' || c == ' '
    || c == '\U{A0}' || c == '\U{1680}' || ('\U{2000}' <= c <= '\U{200A}')
    || c == '\U{2028}' || c == '\U{2029}' || c == '\U{202F}' || c == '\U{205F}'
    || c == '\U{3000}' || c == '\U{FEFF}'
  }

  /** Every character of `s` is whitespace (this includes the empty string). */
  predicate IsBlank(s: string) {
    forall i :: 0 <= i < |s| ==> IsJsWhitespace(s[i])
  }

  /** `s` with its leading whitespace removed. */
  function TrimStart(s: string): (r: string)
    ensures |r| <= |s| && r == s[|s| - |r|..]
    ensures IsBlank(s[..|s| - |r|])
    ensures r == [] || !IsJsWhitespace(r[0])
  {
    if |s| > 0 && IsJsWhitespace(s[0]) then
      var r := TrimStart(s[1..]);
      assert s[..|s| - |r|] == [s[0]] + s[1..][..|s| - 1 - |r|];
      r
    else s
  }

  /** `s` with its trailing whitespace removed. */
  function TrimEnd(s: string): (r: string)
    ensures |r| <= |s| && r == s[..|r|]
    ensures IsBlank(s[|r|..])
    ensures r == [] || !IsJsWhitespace(r[|r| - 1])
  {
    if |s| > 0 && IsJsWhitespace(s[|s| - 1]) then
      var r := TrimEnd(s[..|s| - 1]);
      assert s[|r|..] == s[..|s| - 1][|r|..] + [s[|s| - 1]];
      r
    else s
  }

  /** `String.prototype.trim`: the input without its blank ends. */
  function Trim(s: string): (r: string)
    ensures exists i, j :: 0 <= i <= j <= |s| && r == s[i..j] && IsBlank(s[..i]) && IsBlank(s[j..])
    ensures r == [] || (!IsJsWhitespace(r[0]) && !IsJsWhitespace(r[|r| - 1]))
  {
    var t := TrimStart(s);
    var r := TrimEnd(t);
    var i := |s| - |t|;
    assert t == s[i..] && r == t[..|r|];
    assert s[i..i + |r|] == r;
    assert s[i + |r|..] == t[|r|..];
    assert IsBlank(s[..i]) && IsBlank(s[i + |r|..]);
    r
  }

  /** The trimmed string is empty exactly when the input is blank. */
  lemma TrimEmptyIffBlank(s: string)
    ensures Trim(s) == [] <==> IsBlank(s)
  {
  }

  /** Trimming a trimmed string changes nothing. */
  lemma TrimIdempotent(s: string)
    ensures Trim(Trim(s)) == Trim(s)
  {
  }

  /** The protocols `isValidUrl` accepts. */
  predicate IsWebProtocol(p: Option<string>) {
    p == Some("http:") || p == Some("https:")
  }

  /**
   * `isValidUrl(s)`: `None` stands for an absent (`null`/`undefined`) value.
   * Absent, empty and whitespace-only inputs are invalid without consulting
   * the parser; otherwise the trimmed string must parse to an http or https URL.
   */
  function IsValidUrl(s: Option<string>, parse: UrlParser): (valid: bool)
    ensures valid ==> s.Some? && !IsBlank(s.value) && IsWebProtocol(parse(Trim(s.value)))
  {
    if s.None? || Trim(s.value) == [] then false
    else IsWebProtocol(parse(Trim(s.value)))
  }

  /** Absent, empty and whitespace-only strings are invalid, whatever the parser does. */
  lemma BlankUrlIsInvalid(s: Option<string>, parse: UrlParser)
    requires s.None? || IsBlank(s.value)
    ensures !IsValidUrl(s, parse)
  {
  }

  /** A string that is not blank and parses to http/https is valid. */
  lemma WebUrlIsValid(s: string, parse: UrlParser)
    requires !IsBlank(s) && IsWebProtocol(parse(Trim(s)))
    ensures IsValidUrl(Some(s), parse)
  {
  }

  /**
   * Validity does not depend on surrounding whitespace, so the trimmed value
   * the proof page stores and the raw value in the input field agree.
   */
  lemma ValidityIgnoresSurroundingSpace(s: string, parse: UrlParser)
    ensures IsValidUrl(Some(Trim(s)), parse) == IsValidUrl(Some(s), parse)
  {
  }
}
