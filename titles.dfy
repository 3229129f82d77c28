/** Python's `str.strip()` with no argument: remove leading and trailing
    characters for which `str.isspace()` holds. */
module Titles {
  import opened Samples

  /** The characters `str.isspace()` accepts: the ASCII controls TAB to CR,
      the four information separators, SPACE, NEL, NO-BREAK SPACE, and the
      Unicode space and line/paragraph separators. */
  predicate IsSpace(c: char) {
    ('\t' <= c <= '\r')
    || ('\U{001C}' <= c <= '\U{001F}')
    || c == ' '
    || c == '\U{0085}'
    || c == '\U{00A0}'
    || c == '\U{1680}'
    || ('\U{2000}' <= c <= '\U{200A}')
    || c == '\U{2028}'
    || c == '\U{2029}'
    || c == '\U{202F}'
    || c == '\U{205F}'
    || c == '\U{3000}'
  }

  /** Only whitespace (the empty string included). */
  predicate Blank(s: string) {
    forall i | 0 <= i < |s| :: IsSpace(s[i])
  }

  /** `lstrip()`. */
  function TrimStart(s: string): string {
    if s != [] && IsSpace(s[0]) then TrimStart(s[1..]) else s
  }

  /** `rstrip()`. */
  function TrimEnd(s: string): string {
    if s != [] && IsSpace(Last(s)) then TrimEnd(DropLast(s)) else s
  }

  /** `strip()`. */
  function Strip(s: string): string {
    TrimEnd(TrimStart(s))
  }

  /** `lstrip()` removes the longest whitespace prefix. */
  lemma {:induction false} TrimStartShape(s: string)
    ensures var r := TrimStart(s);
            && |r| <= |s| && r == s[|s| - |r|..]
            && Blank(s[..|s| - |r|])
            && (r != [] ==> !IsSpace(r[0]))
    decreases |s|
  {
    if s != [] && IsSpace(s[0]) {
      var r := TrimStart(s[1..]);
      TrimStartShape(s[1..]);
      assert s[1..][..|s[1..]| - |r|] == s[1..|s| - |r|];
    }
  }

  /** `rstrip()` removes the longest whitespace suffix. */
  lemma {:induction false} TrimEndShape(s: string)
    ensures var r := TrimEnd(s);
            && |r| <= |s| && r == s[..|r|]
            && Blank(s[|r|..])
            && (r != [] ==> !IsSpace(Last(r)))
    decreases |s|
  {
    if s != [] && IsSpace(Last(s)) {
      var r := TrimEnd(DropLast(s));
      TrimEndShape(DropLast(s));
      assert DropLast(s)[..|r|] == s[..|r|];
    }
  }

  /** `strip()` yields the slice `s[i..i + |r|]` left once the whitespace
      on both ends is removed; it neither starts nor ends with whitespace. */
  lemma StripShape(s: string)
    ensures var r := Strip(s);
            && |r| <= |s|
            && (exists i | 0 <= i <= |s| - |r| :: r == s[i..i + |r|] && Blank(s[..i]) && Blank(s[i + |r|..]))
            && (r != [] ==> !IsSpace(r[0]) && !IsSpace(Last(r)))
  {
    var t := TrimStart(s);
    var r := TrimEnd(t);
    TrimStartShape(s);
    TrimEndShape(t);
    var i := |s| - |t|;
    assert r == s[i..i + |r|];
    assert s[i + |r|..] == t[|r|..];
  }

  /** A stripped string is empty exactly when the input was blank. */
  lemma StripEmpty(s: string)
    ensures Strip(s) == [] <==> Blank(s)
  {
    var r := Strip(s);
    StripShape(s);
    var i :| 0 <= i <= |s| - |r| && r == s[i..i + |r|] && Blank(s[..i]) && Blank(s[i + |r|..]);
    if r == [] {
      assert forall k | 0 <= k < |s| :: (k < i && s[k] == s[..i][k]) || (k >= i && s[k] == s[i..][k - i]);
    } else {
      assert s[i] == r[0];
    }
  }

  /** Stripping a string a second time changes nothing. */
  lemma StripIdempotent(s: string)
    ensures Strip(Strip(s)) == Strip(s)
  {
    var r := Strip(s);
    StripShape(s);
    if r != [] {
      assert TrimStart(r) == r;
      assert TrimEnd(r) == r;
    }
  }
}
