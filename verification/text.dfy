/** `String.prototype.trim` as the editor uses it to decide whether a line is blank. */
module Text {

  /** The characters ECMAScript's `trim` removes: WhiteSpace and LineTerminator. */
  predicate IsJsWhitespace(c: char) {
    || c == '\t' || c == '\n' || c == '\U{0B}' || c == '\U{0C}' || c == '\r' || c == ' '
    || c == '\U{A0}' || c == '\U{1680}' || ('\U{2000}' <= c <= '\U{200A}')
    || c == '\U{2028}' || c == '\U{2029}' || c == '\U{202F}' || c == '\U{205F}'
    || c == '\U{3000}' || c == '\U{FEFF}'
  }

  predicate Blank(s: string) {
    forall i :: 0 <= i < |s| ==> IsJsWhitespace(s[i])
  }

  /** Visible ASCII characters are not whitespace. */
  lemma VisibleNotWhitespace(c: char)
    requires 0x21 <= c as int <= 0x7E
    ensures !IsJsWhitespace(c)
  {
  }

  /** `s` without its leading whitespace. */
  function TrimStart(s: string): (r: string)
    ensures |r| <= |s| && r == s[|s| - |r|..]
    ensures Blank(s[..|s| - |r|])
    ensures |r| > 0 ==> !IsJsWhitespace(r[0])
  {
    if |s| == 0 then s
    else if IsJsWhitespace(s[0]) then
      var r := TrimStart(s[1..]);
      assert s[..|s| - |r|] == [s[0]] + s[1..][..|s| - 1 - |r|];
      r
    else s
  }

  /** `s` without its trailing whitespace. */
  function TrimEnd(s: string): (r: string)
    ensures |r| <= |s| && r == s[..|r|]
    ensures Blank(s[|r|..])
    ensures |r| > 0 ==> !IsJsWhitespace(r[|r| - 1])
  {
    if |s| == 0 then s
    else if IsJsWhitespace(s[|s| - 1]) then
      var r := TrimEnd(s[..|s| - 1]);
      assert s[|r|..] == s[..|s| - 1][|r|..] + [s[|s| - 1]];
      r
    else s
  }

  /** `r` occurs in `s` at `i`, and everything before and after it is whitespace. */
  predicate Framed(s: string, i: nat, r: string) {
    && i + |r| <= |s|
    && s[i..i + |r|] == r
    && Blank(s[..i])
    && Blank(s[i + |r|..])
  }

  /** Neither the first nor the last character is whitespace. */
  predicate Trimmed(r: string) {
    |r| > 0 ==> !IsJsWhitespace(r[0]) && !IsJsWhitespace(r[|r| - 1])
  }

  /** `s.trim()`: a slice of `s` that neither starts nor ends with whitespace,
      with only whitespace dropped around it; empty exactly when `s` is blank. */
  function Trim(s: string): (r: string)
    ensures exists i :: Framed(s, i, r)
    ensures |r| > 0 ==> !IsJsWhitespace(r[0]) && !IsJsWhitespace(r[|r| - 1])
    ensures |r| == 0 <==> Blank(s)
  {
    var t := TrimStart(s);
    var r := TrimEnd(t);
    TrimFacts(s, t, r);
    r
  }

  /** What `Trim` promises, from what `TrimStart` and `TrimEnd` promise. */
  lemma TrimFacts(s: string, t: string, r: string)
    requires |t| <= |s| && t == s[|s| - |t|..] && Blank(s[..|s| - |t|])
    requires |t| > 0 ==> !IsJsWhitespace(t[0])
    requires |r| <= |t| && r == t[..|r|] && Blank(t[|r|..])
    requires |r| > 0 ==> !IsJsWhitespace(r[|r| - 1])
    ensures Framed(s, |s| - |t|, r)
    ensures Trimmed(r)
    ensures |r| == 0 <==> Blank(s)
  {
    TrimFramed(s, t, r);
    FramedWhitespace(s, |s| - |t|, r);
    if |r| > 0 {
      assert r[0] == t[0];
    }
    if |t| > 0 {
      assert s[|s| - |t|] == t[0];
    }
  }

  /** A prefix `r` of a suffix `t` of `s` is framed when both cuts drop whitespace. */
  lemma TrimFramed(s: string, t: string, r: string)
    requires |t| <= |s| && t == s[|s| - |t|..] && Blank(s[..|s| - |t|])
    requires |r| <= |t| && r == t[..|r|] && Blank(t[|r|..])
    ensures Framed(s, |s| - |t|, r)
  {
    var i := |s| - |t|;
    assert s[i..i + |r|] == t[..|r|];
    assert s[i + |r|..] == t[|r|..];
  }

  /** At most one trimmed slice of `s` is framed by whitespace, so the
      contract of `Trim` determines its result. */
  lemma TrimUnique(s: string, i: nat, r: string, j: nat, q: string)
    requires Framed(s, i, r) && Trimmed(r)
    requires Framed(s, j, q) && Trimmed(q)
    ensures r == q
  {
    FramedWhitespace(s, i, r);
    FramedWhitespace(s, j, q);
    if |r| > 0 {
      FramedEnds(s, i, r);
    }
    if |q| > 0 {
      FramedEnds(s, j, q);
    }
  }

  /** Every position outside a framed slice holds whitespace. */
  lemma FramedWhitespace(s: string, i: nat, r: string)
    requires Framed(s, i, r)
    ensures forall k :: 0 <= k < i ==> IsJsWhitespace(s[k])
    ensures forall k :: i + |r| <= k < |s| ==> IsJsWhitespace(s[k])
  {
    forall k | 0 <= k < i
      ensures IsJsWhitespace(s[k])
    {
      assert s[..i][k] == s[k];
    }
    forall k | i + |r| <= k < |s|
      ensures IsJsWhitespace(s[k])
    {
      assert s[i + |r|..][k - (i + |r|)] == s[k];
    }
  }

  /** The first and last characters of a non-empty framed slice, read in `s`. */
  lemma FramedEnds(s: string, i: nat, r: string)
    requires Framed(s, i, r) && |r| > 0
    ensures s[i] == r[0] && s[i + |r| - 1] == r[|r| - 1]
  {
    assert s[i..i + |r|][0] == s[i];
    assert s[i..i + |r|][|r| - 1] == s[i + |r| - 1];
  }

}
