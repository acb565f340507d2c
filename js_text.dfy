/**
 * The part of JavaScript's `String.prototype.trim` that the application relies on:
 * it removes leading and trailing white space and line terminators.
 */
module JsText {

  /** White space and line terminators as ECMAScript defines them (Zs is listed in full). */
  predicate IsTrimmable(c: char) {
    || c == '\t' || c == '\n' || c == '\U{000B}' || c == '\U{000C}' || c == '\r'
    || c == ' ' || c == '\U{00A0}' || c == '\U{1680}'
    || ('\U{2000}' <= c <= '\U{200A}')
    || c == '\U{2028}' || c == '\U{2029}' || c == '\U{202F}' || c == '\U{205F}'
    || c == '\U{3000}' || c == '\U{FEFF}'
  }

  /** Every character of `s` is one that trimming removes. */
  predicate IsBlank(s: string) {
    forall i :: 0 <= i < |s| ==> IsTrimmable(s[i])
  }

  function TrimStart(s: string): string
    decreases |s|
  {
    if s != [] && IsTrimmable(s[0]) then TrimStart(s[1..]) else s
  }

  function TrimEnd(s: string): string
    decreases |s|
  {
    if s != [] && IsTrimmable(s[|s| - 1]) then TrimEnd(s[..|s| - 1]) else s
  }

  function Trim(s: string): string {
    TrimEnd(TrimStart(s))
  }

  /** TrimStart drops a blank prefix and keeps the rest, which starts with a kept character. */
  lemma {:induction false} TrimStartShape(s: string)
    ensures |TrimStart(s)| <= |s|
    ensures TrimStart(s) == s[|s| - |TrimStart(s)|..]
    ensures IsBlank(s[..|s| - |TrimStart(s)|])
    ensures TrimStart(s) != [] ==> !IsTrimmable(TrimStart(s)[0])
    decreases |s|
  {
    if s != [] && IsTrimmable(s[0]) {
      TrimStartShape(s[1..]);
      var k := |s| - |TrimStart(s)|;
      assert s[1..][..|s| - 1 - |TrimStart(s)|] == s[1..k];
      forall i | 0 <= i < k ensures IsTrimmable(s[..k][i]) {
        if i > 0 { assert s[..k][i] == s[1..k][i - 1]; }
      }
    }
  }

  /** TrimEnd yields the empty string exactly when its input is blank. */
  lemma {:induction false} TrimEndEmptyIffBlank(s: string)
    ensures TrimEnd(s) == [] <==> IsBlank(s)
    decreases |s|
  {
    if s != [] && IsTrimmable(s[|s| - 1]) {
      TrimEndEmptyIffBlank(s[..|s| - 1]);
      if IsBlank(s[..|s| - 1]) {
        forall i | 0 <= i < |s| ensures IsTrimmable(s[i]) {
          if i < |s| - 1 { assert s[i] == s[..|s| - 1][i]; }
        }
      } else {
        var i :| 0 <= i < |s| - 1 && !IsTrimmable(s[..|s| - 1][i]);
        assert s[i] == s[..|s| - 1][i];
      }
    } else if s != [] {
      assert !IsTrimmable(s[|s| - 1]);
    }
  }

  /** `s.trim()` is empty exactly when every character of `s` is white space. */
  lemma TrimEmptyIffBlank(s: string)
    ensures Trim(s) == [] <==> IsBlank(s)
  {
    TrimStartShape(s);
    var rest := TrimStart(s);
    var k := |s| - |rest|;
    TrimEndEmptyIffBlank(rest);
    if rest == [] {
      assert s[..k] == s;
    } else {
      assert rest[0] == s[k];
    }
  }
}
