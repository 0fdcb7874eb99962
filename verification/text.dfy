/**
 String helpers shared by the tokenizer and the services: one whitespace
 class, blank tests, trimming, substrings, and decimal rendering of counts.
 */
module Text {
  import opened Results

  /** The whitespace class: space and the control characters tab through carriage return. */
  predicate IsWhitespace(c: char) {
    c == ' ' || '\t' <= c <= '\r'
  }

  predicate AllWhitespace(s: string) {
    forall i :: 0 <= i < |s| ==> IsWhitespace(s[i])
  }

  /** A missing, empty or all-whitespace string. */
  predicate IsBlank(s: Option<string>) {
    s.None? || AllWhitespace(s.value)
  }

  /** Neither begins nor ends with whitespace. */
  predicate Trimmed(s: string) {
    |s| == 0 || (!IsWhitespace(s[0]) && !IsWhitespace(s[|s| - 1]))
  }

  /** `t` occurs in `s` starting at offset `i`. */
  predicate OccursAt(t: string, s: string, i: int) {
    0 <= i && i + |t| <= |s| && s[i..i + |t|] == t
  }

  /** `t` is a contiguous substring of `s`. */
  ghost predicate IsSubstring(t: string, s: string) {
    exists i :: OccursAt(t, s, i)
  }

  /** The middle part of a concatenation occurs right after the first part. */
  lemma MiddleOccurs(a: string, b: string, c: string)
    ensures OccursAt(b, a + b + c, |a|)
  {
    assert (a + b + c)[|a|..|a| + |b|] == b;
  }

  /** `r` is `s` with a whitespace prefix of length `i` and a whitespace suffix removed. */
  predicate StripsTo(s: string, i: int, r: string) {
    && OccursAt(r, s, i)
    && (forall k :: 0 <= k < i ==> IsWhitespace(s[k]))
    && (forall k :: i + |r| <= k < |s| ==> IsWhitespace(s[k]))
  }

  /** The end of the whitespace run that starts at `i`. */
  function SkipWhitespace(s: string, i: int): (j: int)
    requires 0 <= i <= |s|
    ensures i <= j <= |s|
    ensures forall k :: i <= k < j ==> IsWhitespace(s[k])
    ensures j < |s| ==> !IsWhitespace(s[j])
    decreases |s| - i
  {
    if i < |s| && IsWhitespace(s[i]) then SkipWhitespace(s, i + 1) else i
  }

  /** The start of the whitespace run that ends at `j`, looking no further back than `lo`. */
  function BackWhitespace(s: string, lo: int, j: int): (i: int)
    requires 0 <= lo <= j <= |s|
    ensures lo <= i <= j
    ensures forall k :: i <= k < j ==> IsWhitespace(s[k])
    ensures i > lo ==> !IsWhitespace(s[i - 1])
    decreases j
  {
    if j > lo && IsWhitespace(s[j - 1]) then BackWhitespace(s, lo, j - 1) else j
  }

  /** Removes whitespace at both ends. */
  function Trim(s: string): (r: string)
    ensures Trimmed(r)
    ensures r == [] <==> AllWhitespace(s)
  {
    var a := SkipWhitespace(s, 0);
    var b := BackWhitespace(s, a, |s|);
    assert a < b ==> s[a..b][0] == s[a] && s[a..b][b - a - 1] == s[b - 1];
    s[a..b]
  }

  /** Trimming removes a whitespace prefix and a whitespace suffix and nothing else. */
  lemma TrimStrips(s: string)
    ensures StripsTo(s, SkipWhitespace(s, 0), Trim(s))
  {
  }

  /** A string that is not all whitespace has one trimmed core only. */
  lemma StripUnique(s: string, i: int, r: string, j: int, x: string)
    requires StripsTo(s, i, r) && Trimmed(r) && StripsTo(s, j, x) && Trimmed(x)
    ensures r == x
  {
    assert |r| > 0 ==> s[i] == r[0] && s[i + |r| - 1] == r[|r| - 1];
    assert |x| > 0 ==> s[j] == x[0] && s[j + |x| - 1] == x[|x| - 1];
    assert |r| > 0 ==> i == j && i + |r| == j + |x|;
    assert |r| == 0 ==> |x| == 0;
  }

  /** Whatever strips to a trimmed core, trimming yields that core. */
  lemma TrimOfStrip(s: string, i: int, r: string)
    requires StripsTo(s, i, r) && Trimmed(r)
    ensures Trim(s) == r
  {
    TrimStrips(s);
    StripUnique(s, SkipWhitespace(s, 0), Trim(s), i, r);
  }

  /** Trimming a string that is already trimmed changes nothing. */
  lemma TrimTrimmed(s: string)
    requires Trimmed(s)
    ensures Trim(s) == s
  {
    assert s[0..|s|] == s;
    TrimOfStrip(s, 0, s);
  }

  /** Trimming is idempotent. */
  lemma TrimIdempotent(s: string)
    ensures Trim(Trim(s)) == Trim(s)
  {
    TrimTrimmed(Trim(s));
  }

  /** Trimming removes exactly the whitespace padding around a trimmed string. */
  lemma TrimPadded(w1: string, x: string, w2: string)
    requires AllWhitespace(w1) && Trimmed(x) && AllWhitespace(w2)
    ensures Trim(w1 + x + w2) == x
  {
    var s := w1 + x + w2;
    assert s[|w1|..|w1| + |x|] == x;
    forall k | |w1| + |x| <= k < |s|
      ensures IsWhitespace(s[k])
    {
      assert s[k] == w2[k - |w1| - |x|];
    }
    TrimOfStrip(s, |w1|, x);
  }

  /** Leading whitespace does not change what trimming leaves. */
  lemma TrimLeadingWhitespace(w: string, x: string)
    requires AllWhitespace(w)
    ensures Trim(w + x) == Trim(x)
  {
    var s := w + x;
    var r := Trim(x);
    var i := SkipWhitespace(x, 0);
    TrimStrips(x);
    assert s[|w| + i..|w| + i + |r|] == x[i..i + |r|];
    forall k | 0 <= k < |w| + i
      ensures IsWhitespace(s[k])
    {
      if k >= |w| {
        assert s[k] == x[k - |w|];
      }
    }
    forall k | |w| + i + |r| <= k < |s|
      ensures IsWhitespace(s[k])
    {
      assert s[k] == x[k - |w|];
    }
    TrimOfStrip(s, |w| + i, r);
  }

  /** Trailing whitespace does not change what trimming leaves. */
  lemma TrimTrailingWhitespace(x: string, w: string)
    requires AllWhitespace(w)
    ensures Trim(x + w) == Trim(x)
  {
    var s := x + w;
    var r := Trim(x);
    var i := SkipWhitespace(x, 0);
    TrimStrips(x);
    assert s[i..i + |r|] == x[i..i + |r|];
    forall k | i + |r| <= k < |s|
      ensures IsWhitespace(s[k])
    {
      if k < |x| {
        assert s[k] == x[k];
      } else {
        assert s[k] == w[k - |x|];
      }
    }
    TrimOfStrip(s, i, r);
  }

  /** A substring of a substring is a substring. */
  lemma SubstringTransitive(t: string, u: string, s: string)
    requires IsSubstring(t, u) && IsSubstring(u, s)
    ensures IsSubstring(t, s)
  {
    var i :| OccursAt(t, u, i);
    var j :| OccursAt(u, s, j);
    assert u == s[j..j + |u|];
    forall k | 0 <= k < |t|
      ensures s[j + i..j + i + |t|][k] == t[k]
    {
      assert t[k] == u[i + k];
    }
    assert OccursAt(t, s, j + i);
  }

  /** Every character of a substring occurs in the enclosing string. */
  lemma SubstringChars(t: string, s: string, c: char)
    requires IsSubstring(t, s) && c in t
    ensures c in s
  {
    var i :| OccursAt(t, s, i);
    var k :| 0 <= k < |t| && t[k] == c;
    assert s[i + k] == s[i..i + |t|][k];
  }

  predicate IsDigit(c: char) {
    '0' <= c <= '9'
  }

  predicate AllDigits(s: string) {
    forall i :: 0 <= i < |s| ==> IsDigit(s[i])
  }

  function DigitChar(d: nat): (c: char)
    requires d < 10
    ensures IsDigit(c)
  {
    ('0' as int + d) as char
  }

  function DigitValue(c: char): (d: nat)
    requires IsDigit(c)
    ensures d < 10 && DigitChar(d) == c
  {
    c as int - '0' as int
  }

  /** The decimal rendering of a non-negative count, as Java's `Long.toString` writes it. */
  function NatToString(n: nat): (s: string)
    ensures |s| >= 1 && AllDigits(s)
    ensures |s| > 1 ==> s[0] != '0'
    decreases n
  {
    if n < 10 then [DigitChar(n)] else NatToString(n / 10) + [DigitChar(n % 10)]
  }

  /** The value of a string of decimal digits. */
  function ParseNat(s: string): nat
    requires AllDigits(s)
  {
    if |s| == 0 then 0 else 10 * ParseNat(s[..|s| - 1]) + DigitValue(s[|s| - 1])
  }

  /** Reading back a rendered count gives the count. */
  lemma {:induction false} ParseNatToString(n: nat)
    ensures ParseNat(NatToString(n)) == n
    decreases n
  {
    var s := NatToString(n);
    if n >= 10 {
      ParseNatToString(n / 10);
      assert s[..|s| - 1] == NatToString(n / 10);
      assert DigitValue(s[|s| - 1]) == n % 10;
    } else {
      assert DigitValue(s[0]) == n;
    }
  }
}
