/**
  Whitespace trimming of user input, as ECMAScript's String.prototype.trim
  does it (section 22.1.3.32 of ECMA-262): strip every leading and every
  trailing WhiteSpace or LineTerminator code point, keep the middle intact.
 */
module Text {

  /** The WhiteSpace and LineTerminator code points of ECMA-262 (sections
      12.2 and 12.3): tab, line feed, vertical tab, form feed, carriage
      return, the Unicode "Zs" space separators, the byte order mark and the
      line/paragraph separators. The proofs below never depend on which code
      points are in this set. */
  predicate IsWhitespace(c: char)
  {
    || c == '\t' || c == '\n' || c == '\U{000B}' || c == '\U{000C}' || c == '\r'
    || c == ' ' || c == '\U{00A0}' || c == '\U{1680}'
    || ('\U{2000}' <= c <= '\U{200A}')
    || c == '\U{2028}' || c == '\U{2029}' || c == '\U{202F}' || c == '\U{205F}'
    || c == '\U{3000}' || c == '\U{FEFF}'
  }

  /** Every character of `s` is whitespace (so the empty string qualifies). */
  predicate AllWhitespace(s: string)
  {
    forall i :: 0 <= i < |s| ==> IsWhitespace(s[i])
  }

  /** Neither end of `s` is whitespace: `s` is a fixed point of trimming. */
  predicate IsTrimmed(s: string)
  {
    s == [] || (!IsWhitespace(s[0]) && !IsWhitespace(s[|s| - 1]))
  }

  /** The number of whitespace characters `s` starts with: every character
      before that position is whitespace, and the one at it (if any) is
      not. */
  function LeadingWhitespace(s: string): (n: nat)
    ensures n <= |s|
    ensures forall i :: 0 <= i < n ==> IsWhitespace(s[i])
    ensures n < |s| ==> !IsWhitespace(s[n])
    decreases |s|
  {
    if |s| > 0 && IsWhitespace(s[0]) then 1 + LeadingWhitespace(s[1..]) else 0
  }

  /** The length of `s` without its trailing whitespace: every character
      from that position on is whitespace, and the one just before it (if
      any) is not. */
  function ContentEnd(s: string): (n: nat)
    ensures n <= |s|
    ensures forall i :: n <= i < |s| ==> IsWhitespace(s[i])
    ensures n > 0 ==> !IsWhitespace(s[n - 1])
    decreases |s|
  {
    if |s| > 0 && IsWhitespace(s[|s| - 1]) then ContentEnd(s[..|s| - 1]) else |s|
  }

  /** The two positions above are determined by their properties. */
  lemma LeadingWhitespaceUnique(s: string, n: nat)
    requires n <= |s|
    requires forall i :: 0 <= i < n ==> IsWhitespace(s[i])
    requires n < |s| ==> !IsWhitespace(s[n])
    ensures LeadingWhitespace(s) == n
  {
  }

  /** The same for the end of the content. */
  lemma ContentEndUnique(s: string, n: nat)
    requires n <= |s|
    requires forall i :: n <= i < |s| ==> IsWhitespace(s[i])
    requires n > 0 ==> !IsWhitespace(s[n - 1])
    ensures ContentEnd(s) == n
  {
  }

  /** String.prototype.trim: the part of `s` from its first to its last
      non-whitespace character. The result has no whitespace at either
      end, and it is empty exactly when `s` holds nothing but whitespace;
      TrimSlice shows that only whitespace is cut away. */
  function Trim(s: string): (r: string)
    ensures IsTrimmed(r)
    ensures |r| <= |s|
    ensures r == [] <==> AllWhitespace(s)
  {
    var start := LeadingWhitespace(s);
    var end := ContentEnd(s);
    if end <= start then [] else s[start..end]
  }

  /** `s` is its trimmed text padded on both sides with whitespace only: the
      trimmed text is the piece of `s` that starts after the leading
      whitespace, and everything before and after it is whitespace. */
  lemma TrimSlice(s: string)
    ensures var r := Trim(s);
      var k := LeadingWhitespace(s);
      && k + |r| <= |s| && r == s[k..k + |r|]
      && AllWhitespace(s[..k]) && AllWhitespace(s[k + |r|..])
  {
    var r := Trim(s);
    var k := LeadingWhitespace(s);
    if r == [] {
      assert s[k..k] == [];
    } else {
      assert k + |r| == ContentEnd(s);
    }
  }

  /** The blank-input test of addTask: the input trims to the empty string. */
  predicate IsBlank(s: string)
  {
    Trim(s) == []
  }

  /** Trim is determined by the decomposition it promises: whenever `s` is a
      trimmed string padded on both sides with whitespace only, Trim
      recovers exactly that string. */
  lemma TrimOfPadded(a: string, m: string, b: string)
    requires AllWhitespace(a) && AllWhitespace(b)
    requires IsTrimmed(m)
    ensures Trim(a + m + b) == m
  {
    var s := a + m + b;
    if m != [] {
      assert forall i :: 0 <= i < |a| ==> s[i] == a[i];
      assert forall i :: |a| + |m| <= i < |s| ==> s[i] == b[i - |a| - |m|];
      assert s[|a|] == m[0] && s[|a| + |m| - 1] == m[|m| - 1];
      LeadingWhitespaceUnique(s, |a|);
      ContentEndUnique(s, |a| + |m|);
      assert s[|a|..|a| + |m|] == m;
    }
  }

  /** Trimming twice is trimming once. */
  lemma TrimIdempotent(s: string)
    ensures Trim(Trim(s)) == Trim(s)
  {
    var m := Trim(s);
    assert [] + m + [] == m;
    TrimOfPadded([], m, []);
  }

  /** A non-empty text with no whitespace at either end trims to itself and
      is not blank. */
  lemma TrimmedTextIsKept(s: string)
    requires s != [] && IsTrimmed(s)
    ensures Trim(s) == s && !AllWhitespace(s)
  {
    assert [] + s + [] == s;
    TrimOfPadded([], s, []);
  }
}
