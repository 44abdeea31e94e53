/** String trimming as JavaScript's `String.prototype.trim` performs it. */
module Text {

  /** The code points ECMAScript counts as WhiteSpace or LineTerminator: exactly the
      characters `trim` removes from either end of a string. */
  predicate IsWhitespace(c: char) {
    || c == '\t' || c == '\n' || c == '\U{000B}' || c == '\U{000C}' || c == '\r'
    || c == ' ' || c == '\U{00A0}' || c == '\U{1680}'
    || ('\U{2000}' <= c <= '\U{200A}')
    || c == '\U{2028}' || c == '\U{2029}' || c == '\U{202F}' || c == '\U{205F}'
    || c == '\U{3000}' || c == '\U{FEFF}'
  }

  /** Every character of s is whitespace; the empty string is blank. */
  predicate IsBlank(s: string) {
    forall i :: 0 <= i < |s| ==> IsWhitespace(s[i])
  }

  /** Neither end of s is whitespace. */
  predicate IsTrimmed(s: string) {
    s == [] || (!IsWhitespace(s[0]) && !IsWhitespace(s[|s| - 1]))
  }

  /** s with its leading whitespace removed. */
  function TrimStart(s: string): (r: string)
    ensures |r| <= |s|
  {
    if s != [] && IsWhitespace(s[0]) then TrimStart(s[1..]) else s
  }

  /** s with its trailing whitespace removed. */
  function TrimEnd(s: string): (r: string)
    ensures |r| <= |s|
  {
    if s != [] && IsWhitespace(s[|s| - 1]) then TrimEnd(s[..|s| - 1]) else s
  }

  /** `s.trim()`: what it leaves has no whitespace at either end, and it is empty
      exactly when s is blank. */
  function Trim(s: string): (r: string)
    ensures |r| <= |s|
    ensures IsTrimmed(r)
    ensures r == [] <==> IsBlank(s)
  {
    BothEndsShape(s);
    TrimEnd(TrimStart(s))
  }

  /** TrimStart leaves a suffix of s, everything it cut is whitespace, and what is left
      does not start with whitespace. */
  lemma {:induction false} TrimStartShape(s: string)
    ensures |TrimStart(s)| <= |s| && TrimStart(s) == s[|s| - |TrimStart(s)|..]
    ensures IsBlank(s[..|s| - |TrimStart(s)|])
    ensures TrimStart(s) == [] || !IsWhitespace(TrimStart(s)[0])
  {
    if s != [] && IsWhitespace(s[0]) {
      TrimStartShape(s[1..]);
      var k := |s| - |TrimStart(s)|;
      assert s[..k] == [s[0]] + s[1..][..k - 1];
    }
  }

  /** TrimEnd leaves a prefix of s, everything it cut is whitespace, and what is left
      does not end with whitespace. */
  lemma {:induction false} TrimEndShape(s: string)
    ensures |TrimEnd(s)| <= |s| && TrimEnd(s) == s[..|TrimEnd(s)|]
    ensures IsBlank(s[|TrimEnd(s)|..])
    ensures TrimEnd(s) == [] || !IsWhitespace(TrimEnd(s)[|TrimEnd(s)| - 1])
  {
    if s != [] && IsWhitespace(s[|s| - 1]) {
      var init := s[..|s| - 1];
      TrimEndShape(init);
      var r := TrimEnd(s);
      assert r == TrimEnd(init);
      assert s[|r|..] == init[|r|..] + [s[|s| - 1]];
    }
  }

  lemma SplitAt(s: string, k: nat, m: nat)
    requires k <= m <= |s|
    ensures s == s[..k] + s[k..m] + s[m..]
  {
  }

  /** Trim cuts whitespace only, from both ends: s is the cut prefix, the trimmed
      string and the cut suffix, one after the other. */
  lemma {:induction false} TrimIsInfix(s: string)
    ensures var r, k := Trim(s), |s| - |TrimStart(s)|;
      && k + |r| <= |s|
      && s == s[..k] + r + s[k + |r|..]
      && IsBlank(s[..k]) && IsBlank(s[k + |r|..])
  {
    var u := TrimStart(s);
    var r := TrimEnd(u);
    var k := |s| - |u|;
    TrimStartShape(s);
    TrimEndShape(u);
    assert u == s[k..];
    assert r == u[..|r|];
    assert r == s[k..k + |r|];
    SplitAt(s, k, k + |r|);
    assert IsBlank(u[|r|..]);
    assert s[k + |r|..] == u[|r|..];
  }

  /** Cutting both ends leaves no whitespace at either end, and leaves nothing exactly
      when s is blank. */
  lemma {:induction false} BothEndsShape(s: string)
    ensures IsTrimmed(TrimEnd(TrimStart(s)))
    ensures TrimEnd(TrimStart(s)) == [] <==> IsBlank(s)
  {
    var u := TrimStart(s);
    var r := TrimEnd(u);
    var k := |s| - |u|;
    TrimStartShape(s);
    TrimEndShape(u);
    if r == [] {
      assert u[|r|..] == u;
      assert u == [];
      assert s[..k] == s;
    } else {
      assert r[0] == u[0] == s[k];
    }
  }

  /** A string with no whitespace at either end is left alone by trim. */
  lemma {:induction false} TrimFixesTrimmed(s: string)
    requires IsTrimmed(s)
    ensures Trim(s) == s
  {
    if s != [] {
      assert TrimStart(s) == s;
      assert TrimEnd(s) == s;
    }
  }

  /** Trimming twice is trimming once. */
  lemma {:induction false} TrimIdempotent(s: string)
    ensures Trim(Trim(s)) == Trim(s)
  {
    TrimFixesTrimmed(Trim(s));
  }
}
