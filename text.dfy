/** The two Python string operations the link store relies on: `str.strip()`
    with no argument, and `str.startswith(prefix)`. Strings are sequences of
    Dafny `char`s, that is Unicode code points other than surrogates. */
module Text {

  /** The 29 whitespace code points, listed one by one. */
  const PythonWhitespace: set<char> := {
    '\U{9}', '\U{A}', '\U{B}', '\U{C}', '\U{D}',
    '\U{1C}', '\U{1D}', '\U{1E}', '\U{1F}', '\U{20}',
    '\U{85}', '\U{A0}', '\U{1680}',
    '\U{2000}', '\U{2001}', '\U{2002}', '\U{2003}', '\U{2004}', '\U{2005}',
    '\U{2006}', '\U{2007}', '\U{2008}', '\U{2009}', '\U{200A}',
    '\U{2028}', '\U{2029}', '\U{202F}', '\U{205F}', '\U{3000}'
  }

  /** The characters Python's `str.isspace()` accepts, which are exactly the
      characters `str.strip()` removes when called without an argument:
      U+0009..U+000D, U+001C..U+0020, U+0085, U+00A0, U+1680, U+2000..U+200A,
      U+2028, U+2029, U+202F, U+205F and U+3000. */
  predicate IsSpace(c: char) {
    || ('\U{9}' <= c <= '\U{D}')
    || ('\U{1C}' <= c <= '\U{20}')
    || c == '\U{85}'
    || c == '\U{A0}'
    || c == '\U{1680}'
    || ('\U{2000}' <= c <= '\U{200A}')
    || c == '\U{2028}'
    || c == '\U{2029}'
    || c == '\U{202F}'
    || c == '\U{205F}'
    || c == '\U{3000}'
  }

  /** The ranges tested by IsSpace are exactly the 29 listed code points. */
  lemma IsSpaceIsPythonWhitespace(c: char)
    ensures IsSpace(c) <==> c in PythonWhitespace
  {
  }

  predicate AllSpace(s: string) {
    forall k :: 0 <= k < |s| ==> IsSpace(s[k])
  }

  /** Length of the longest all-whitespace prefix of `s`. */
  function LeadingSpaces(s: string): (n: nat)
    ensures n <= |s|
    ensures AllSpace(s[..n])
    ensures n < |s| ==> !IsSpace(s[n])
  {
    if s == [] || !IsSpace(s[0]) then 0
    else
      var m := LeadingSpaces(s[1..]);
      assert s[..m + 1] == [s[0]] + s[1..][..m];
      m + 1
  }

  /** Length of the longest all-whitespace suffix of `s`. */
  function TrailingSpaces(s: string): (n: nat)
    ensures n <= |s|
    ensures AllSpace(s[|s| - n..])
    ensures n < |s| ==> !IsSpace(s[|s| - 1 - n])
  {
    if s == [] || !IsSpace(s[|s| - 1]) then 0
    else
      var init := s[..|s| - 1];
      var m := TrailingSpaces(init);
      assert s[|s| - (m + 1)..] == init[|init| - m..] + [s[|s| - 1]];
      m + 1
  }

  /** Python's `s.strip()`: `s` without its leading and trailing whitespace.
      The result is empty exactly when `s` is all whitespace, and otherwise
      neither begins nor ends with whitespace; StripInfix and StripUnique say
      which part of `s` it is. */
  function Strip(s: string): (r: string)
    ensures |r| <= |s|
    ensures r == [] <==> AllSpace(s)
    ensures r != [] ==> !IsSpace(r[0]) && !IsSpace(r[|r| - 1])
  {
    var i := LeadingSpaces(s);
    var t := s[i..];
    var r := t[..|t| - TrailingSpaces(t)];
    assert r == [] ==> AllSpace(s) by {
      if r == [] {
        assert i == |s|;
        assert s == s[..i];
      }
    }
    assert AllSpace(s) ==> i == |s|;
    r
  }

  /** Python's `s.startswith(prefix)`: holds exactly when `s` is `prefix`
      followed by something. */
  function StartsWith(s: string, prefix: string): (b: bool)
    ensures b <==> exists rest :: s == prefix + rest
  {
    if |prefix| <= |s| && s[..|prefix|] == prefix then
      assert s == prefix + s[|prefix|..];
      true
    else
      assert forall rest :: (prefix + rest)[..|prefix|] == prefix;
      false
  }

  /** What strip keeps is the infix of `s` starting at `i`, with only
      whitespace before and after it. */
  lemma StripInfix(s: string) returns (i: nat)
    ensures i + |Strip(s)| <= |s| && s[i..i + |Strip(s)|] == Strip(s)
    ensures AllSpace(s[..i]) && AllSpace(s[i + |Strip(s)|..])
  {
    i := LeadingSpaces(s);
    var t := s[i..];
    var j := |t| - TrailingSpaces(t);
    assert Strip(s) == t[..j] == s[i..i + j];
    assert s[i + j..] == t[j..];
  }

  /** Strip is determined by its characterisation: any split of `s` into
      whitespace, a core that neither begins nor ends with whitespace, and
      whitespace, has that core as `Strip(s)`. */
  lemma StripUnique(s: string, i: nat, j: nat)
    requires i <= j <= |s|
    requires AllSpace(s[..i]) && AllSpace(s[j..])
    requires i < j ==> !IsSpace(s[i]) && !IsSpace(s[j - 1])
    ensures Strip(s) == s[i..j]
  {
    if i == j {
      forall k | 0 <= k < |s| ensures IsSpace(s[k]) {
        if k < i { assert s[k] == s[..i][k]; } else { assert s[k] == s[j..][k - j]; }
      }
    } else {
      assert LeadingSpaces(s) == i;
      var t := s[i..];
      var m := TrailingSpaces(t);
      var e := |t| - m;
      assert e == j - i;
      assert t[..e] == s[i..j];
    }
  }

  /** A string that neither begins nor ends with whitespace is its own strip. */
  lemma StripUnpadded(s: string)
    requires s != [] ==> !IsSpace(s[0]) && !IsSpace(s[|s| - 1])
    ensures Strip(s) == s
  {
    StripUnique(s, 0, |s|);
  }

  /** Stripping twice is stripping once. */
  lemma StripIdempotent(s: string)
    ensures Strip(Strip(s)) == Strip(s)
  {
    var r := Strip(s);
    StripUnique(r, 0, |r|);
  }

  /** Whitespace added around a string does not change what strip keeps. */
  lemma StripIgnoresPadding(left: string, s: string, right: string)
    requires AllSpace(left) && AllSpace(right)
    ensures Strip(left + s + right) == Strip(s)
  {
    var r := Strip(s);
    var i := StripInfix(s);
    var p := left + s + right;
    var a := |left| + i;
    var b := a + |r|;
    assert p[a..b] == r;
    assert AllSpace(p[..a]) by {
      assert p[..a] == left + s[..i];
      forall k | 0 <= k < a ensures IsSpace(p[..a][k]) {
        if k < |left| { assert p[..a][k] == left[k]; } else { assert p[..a][k] == s[..i][k - |left|]; }
      }
    }
    assert AllSpace(p[b..]) by {
      var tail := s[i + |r|..];
      assert p[b..] == tail + right;
      forall k | 0 <= k < |p| - b ensures IsSpace(p[b..][k]) {
        if k < |tail| { assert p[b..][k] == tail[k]; } else { assert p[b..][k] == right[k - |tail|]; }
      }
    }
    if r == [] {
      StripUnique(p, a, a);
    } else {
      assert p[a] == r[0] && p[b - 1] == r[|r| - 1];
      StripUnique(p, a, b);
    }
  }
}
