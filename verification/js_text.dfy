/**
 * The JavaScript string semantics that the group form and the reports page rely on:
 * the white-space class shared by the regular expression `\s` and by
 * `String.prototype.trim`, trimming, and the "blank after trim" test.
 */
module JsText {

  /** True for the characters ECMAScript calls WhiteSpace or LineTerminator:
      TAB, LF, VT, FF, CR, SPACE, NO-BREAK SPACE, OGHAM SPACE MARK, the spaces
      U+2000..U+200A, LINE SEPARATOR, PARAGRAPH SEPARATOR, NARROW NO-BREAK SPACE,
      MEDIUM MATHEMATICAL SPACE, IDEOGRAPHIC SPACE and the byte-order mark. */
  predicate IsSpace(c: char)
  {
    c in SpaceChars
  }

  /** The white-space characters, one by one. */
  const SpaceChars: set<char> := {
    '\t', '\n', '\U{000B}', '\U{000C}', '\r', ' ', '\U{00A0}', '\U{1680}',
    '\U{2000}', '\U{2001}', '\U{2002}', '\U{2003}', '\U{2004}', '\U{2005}',
    '\U{2006}', '\U{2007}', '\U{2008}', '\U{2009}', '\U{200A}',
    '\U{2028}', '\U{2029}', '\U{202F}', '\U{205F}', '\U{3000}', '\U{FEFF}'
  }

  /** Within ASCII the white-space class is SPACE and TAB..CR; nothing past the byte-order mark is
      white space, and neither is any letter or digit of the Basic Latin block. */
  lemma SpaceClass(c: char)
    ensures c as int < 128 ==> (IsSpace(c) <==> c == ' ' || '\t' <= c <= '\r')
    ensures c as int > 0xFEFF ==> !IsSpace(c)
    ensures 'a' <= c <= 'z' || 'A' <= c <= 'Z' || '0' <= c <= '9' ==> !IsSpace(c)
  {
  }

  /** Every character of `s` is white space (the empty string is blank). */
  predicate IsBlank(s: string)
  {
    forall i :: 0 <= i < |s| ==> IsSpace(s[i])
  }

  /** No character of `s` is white space. */
  predicate HasNoSpace(s: string)
  {
    forall i :: 0 <= i < |s| ==> !IsSpace(s[i])
  }

  /** `s` without its leading white space. */
  function TrimStart(s: string): (r: string)
    ensures |r| <= |s| && r == s[|s| - |r|..]
    ensures IsBlank(s[..|s| - |r|])
    ensures r == [] || !IsSpace(r[0])
  {
    if |s| > 0 && IsSpace(s[0]) then
      var r := TrimStart(s[1..]);
      TrimStartStep(s, r);
      r
    else
      assert s[..0] == [];
      s
  }

  /** `s` without its trailing white space. */
  function TrimEnd(s: string): (r: string)
    ensures |r| <= |s| && r == s[..|r|]
    ensures IsBlank(s[|r|..])
    ensures r == [] || !IsSpace(r[|r| - 1])
  {
    if |s| > 0 && IsSpace(s[|s| - 1]) then
      var r := TrimEnd(s[..|s| - 1]);
      TrimEndStep(s, r);
      r
    else
      assert s[|s|..] == [];
      s
  }

  /** Dropping a leading space keeps a blank-prefixed suffix of the rest a blank-prefixed suffix of the whole. */
  lemma TrimStartStep(s: string, r: string)
    requires |s| > 0 && IsSpace(s[0])
    requires |r| <= |s| - 1 && r == s[1..][|s| - 1 - |r|..]
    requires IsBlank(s[1..][..|s| - 1 - |r|])
    ensures r == s[|s| - |r|..]
    ensures IsBlank(s[..|s| - |r|])
  {
    var q := s[1..];
    assert q[|q| - |r|..] == s[|s| - |r|..];
    var x := s[..|s| - |r|];
    assert x[..1] == [s[0]] && x[1..] == q[..|q| - |r|];
    BlankSplit(x, 1);
  }

  /** Dropping a trailing space keeps a prefix of the rest with a blank tail a prefix of the whole with a blank tail. */
  lemma TrimEndStep(s: string, r: string)
    requires |s| > 0 && IsSpace(s[|s| - 1])
    requires |r| <= |s| - 1 && r == s[..|s| - 1][..|r|]
    requires IsBlank(s[..|s| - 1][|r|..])
    ensures r == s[..|r|]
    ensures IsBlank(s[|r|..])
  {
    var p := s[..|s| - 1];
    assert p[..|r|] == s[..|r|];
    var x := s[|r|..];
    assert x[..|x| - 1] == p[|r|..] && x[|x| - 1..] == [s[|s| - 1]];
    BlankSplit(x, |x| - 1);
  }

  /** `r` is `s` with a blank prefix and a blank suffix cut off. */
  predicate IsCutOf(s: string, r: string)
  {
    exists k :: 0 <= k && k + |r| <= |s| && IsBlank(s[..k]) && s[k..k + |r|] == r && IsBlank(s[k + |r|..])
  }

  /** JavaScript's `s.trim()`: what is left of `s` after removing white space at both ends. */
  function Trim(s: string): (r: string)
    ensures |r| <= |s|
    ensures r == [] || (!IsSpace(r[0]) && !IsSpace(r[|r| - 1]))
    ensures r == [] <==> IsBlank(s)
    ensures IsCutOf(s, r)
  {
    var t := TrimStart(s);
    var r := TrimEnd(t);
    TrimIsCut(s, t, r);
    TrimEmptyIffBlank(s, t, r);
    assert r == [] || r[0] == t[0];
    r
  }

  /** The two-sided trim leaves nothing exactly when `s` is blank. */
  lemma TrimEmptyIffBlank(s: string, t: string, r: string)
    requires |t| <= |s| && t == s[|s| - |t|..] && IsBlank(s[..|s| - |t|])
    requires |r| <= |t| && r == t[..|r|] && IsBlank(t[|r|..])
    requires r == [] || !IsSpace(r[|r| - 1])
    ensures r == [] <==> IsBlank(s)
  {
    BlankSplit(s, |s| - |t|);
    if r == [] {
      assert t[|r|..] == t;
    } else {
      assert r[|r| - 1] == s[|s| - |t| + |r| - 1];
    }
  }

  /** A blank prefix of `s` followed by a prefix of the rest with a blank tail is a cut of `s`. */
  lemma TrimIsCut(s: string, t: string, r: string)
    requires |t| <= |s| && t == s[|s| - |t|..] && IsBlank(s[..|s| - |t|])
    requires |r| <= |t| && r == t[..|r|] && IsBlank(t[|r|..])
    ensures IsCutOf(s, r)
  {
    var k := |s| - |t|;
    assert s[k..k + |r|] == t[..|r|];
    assert s[k + |r|..] == t[|r|..];
    CutAt(s, k, r);
  }

  /** Any position that splits `s` into a blank prefix, `r` and a blank tail shows `r` to be a cut of `s`. */
  lemma CutAt(s: string, k: nat, r: string)
    requires k + |r| <= |s| && IsBlank(s[..k]) && s[k..k + |r|] == r && IsBlank(s[k + |r|..])
    ensures IsCutOf(s, r)
  {
  }

  /** A string is blank exactly when both halves of any split of it are. */
  lemma BlankSplit(s: string, k: nat)
    requires k <= |s|
    ensures IsBlank(s) <==> IsBlank(s[..k]) && IsBlank(s[k..])
  {
    if IsBlank(s[..k]) && IsBlank(s[k..]) {
      forall i | 0 <= i < |s|
        ensures IsSpace(s[i])
      {
        if i < k { assert s[i] == s[..k][i]; } else { assert s[i] == s[k..][i - k]; }
      }
    }
  }

  /** Leading white space followed by a non-space start is removed completely. */
  lemma {:induction false} TrimStartBlankPrefix(w: string, b: string)
    requires IsBlank(w)
    requires b == [] || !IsSpace(b[0])
    ensures TrimStart(w + b) == b
  {
    if w != [] {
      assert (w + b)[1..] == w[1..] + b;
      TrimStartBlankPrefix(w[1..], b);
    } else {
      assert w + b == b;
    }
  }

  /** Trimming the front of a string that is not blank never reaches what follows it. */
  lemma {:induction false} TrimStartConcat(x: string, t: string)
    requires !IsBlank(x)
    ensures TrimStart(x + t) == TrimStart(x) + t
  {
    if IsSpace(x[0]) {
      assert (x + t)[1..] == x[1..] + t;
      assert !IsBlank(x[1..]) by {
        var i :| 0 <= i < |x| && !IsSpace(x[i]);
        assert x[1..][i - 1] == x[i];
      }
      TrimStartConcat(x[1..], t);
    }
  }

  /** Joining two strings without white space gives a string without white space. */
  lemma NoSpaceConcat(a: string, b: string)
    requires HasNoSpace(a) && HasNoSpace(b)
    ensures HasNoSpace(a + b)
  {
    var v := a + b;
    forall i | 0 <= i < |v|
      ensures !IsSpace(v[i])
    {
      if i < |a| { assert v[i] == a[i]; } else { assert v[i] == b[i - |a|]; }
    }
  }
}
