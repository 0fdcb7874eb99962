/**
 The scope-string tokenizer: a blank input has no tokens; otherwise the input
 is trimmed, split with `String.split` on the separator pattern `\s*,\s*`
 (whitespace, one comma, whitespace) and the pieces are collected into a set.

 The regular-expression split is modelled as the Java matcher runs it
 (leftmost match, greedy whitespace, trailing empty pieces removed) and is
 proved equal to a plain reference: split at every comma, trim every piece.
 */
module Tokenizer {
  import opened Results
  import opened Text

  predicate CommaFree(s: string) {
    ',' !in s
  }

  /** The first comma at or after `from`, or `|s|` when there is none. */
  function FirstComma(s: string, from: int): (c: int)
    requires 0 <= from <= |s|
    ensures from <= c <= |s|
    ensures forall k :: from <= k < c ==> s[k] != ','
    ensures c < |s| ==> s[c] == ','
    decreases |s| - from
  {
    if from == |s| || s[from] == ',' then from else FirstComma(s, from + 1)
  }

  /** The first comma is determined by where the commas are. */
  lemma FirstCommaIs(s: string, from: int, c: int)
    requires 0 <= from <= c <= |s|
    requires forall k :: from <= k < c ==> s[k] != ','
    requires c < |s| ==> s[c] == ','
    ensures FirstComma(s, from) == c
  {
  }

  // ---------------------------------------------------------------------------
  // The reference: a plain comma split

  /** The pieces between commas, every piece kept, whitespace included. */
  function Segments(s: string): (r: seq<string>)
    ensures |r| >= 1
    ensures forall i :: 0 <= i < |r| ==> CommaFree(r[i])
    decreases |s|
  {
    var c := FirstComma(s, 0);
    if c == |s| then
      [s]
    else
      var rest := Segments(s[c + 1..]);
      assert forall i :: 1 <= i < 1 + |rest| ==> ([s[..c]] + rest)[i] == rest[i - 1];
      [s[..c]] + rest
  }

  /** The pieces glued back together with commas between them. */
  function Join(pieces: seq<string>): string
    requires |pieces| >= 1
  {
    if |pieces| == 1 then pieces[0] else pieces[0] + "," + Join(pieces[1..])
  }

  /** Joining the pieces of a string gives back the string. */
  lemma {:induction false} JoinSegments(s: string)
    ensures Join(Segments(s)) == s
    decreases |s|
  {
    var c := FirstComma(s, 0);
    if c < |s| {
      JoinSegments(s[c + 1..]);
      assert Segments(s)[1..] == Segments(s[c + 1..]);
      assert s == s[..c] + "," + s[c + 1..];
    }
  }

  /** Splitting comma-free pieces joined with commas gives back the pieces. */
  lemma {:induction false} SegmentsJoin(pieces: seq<string>)
    requires |pieces| >= 1
    requires forall i :: 0 <= i < |pieces| ==> CommaFree(pieces[i])
    ensures Segments(Join(pieces)) == pieces
    decreases |pieces|
  {
    var s := Join(pieces);
    var p := pieces[0];
    if |pieces| == 1 {
      FirstCommaIs(s, 0, |s|);
    } else {
      var rest := Join(pieces[1..]);
      assert s == p + "," + rest;
      forall k | 0 <= k < |p|
        ensures s[k] != ','
      {
        assert s[k] == p[k];
      }
      FirstCommaIs(s, 0, |p|);
      assert s[..|p|] == p;
      assert s[|p| + 1..] == rest;
      SegmentsJoin(pieces[1..]);
    }
  }

  /** Every piece occurs in the string it came from. */
  lemma {:induction false} SegmentOccurs(s: string, i: int)
    requires 0 <= i < |Segments(s)|
    ensures IsSubstring(Segments(s)[i], s)
    decreases |s|
  {
    var c := FirstComma(s, 0);
    if c == |s| {
      assert OccursAt(s, s, 0);
    } else if i == 0 {
      assert OccursAt(s[..c], s, 0);
    } else {
      var rest := s[c + 1..];
      SegmentOccurs(rest, i - 1);
      assert OccursAt(rest, s, c + 1);
      SubstringTransitive(Segments(s)[i], rest, s);
    }
  }

  /** A comma-free prefix lengthens the first piece only. */
  lemma SegmentsAfterPrefix(w: string, v: string)
    requires CommaFree(w)
    ensures |Segments(w + v)| == |Segments(v)|
    ensures Segments(w + v)[0] == w + Segments(v)[0]
    ensures forall i :: 1 <= i < |Segments(v)| ==> Segments(w + v)[i] == Segments(v)[i]
  {
    var s := w + v;
    var c := FirstComma(v, 0);
    forall k | 0 <= k < |w| + c
      ensures s[k] != ','
    {
      if k < |w| {
        assert s[k] == w[k] && w[k] in w;
      } else {
        assert s[k] == v[k - |w|];
      }
    }
    assert |w| + c < |s| ==> s[|w| + c] == v[c];
    FirstCommaIs(s, 0, |w| + c);
    if c < |v| {
      assert s[..|w| + c] == w + v[..c];
      assert s[|w| + c + 1..] == v[c + 1..];
    } else {
      assert v[..c] == v;
    }
  }

  /** A comma-free suffix lengthens the last piece only. */
  lemma {:induction false} SegmentsBeforeSuffix(v: string, w: string)
    requires CommaFree(w)
    ensures var p := Segments(v);
      Segments(v + w) == p[..|p| - 1] + [p[|p| - 1] + w]
    decreases |v|
  {
    var s := v + w;
    var c := FirstComma(v, 0);
    if c == |v| {
      forall k | 0 <= k < |s|
        ensures s[k] != ','
      {
        if k >= |v| {
          assert s[k] == w[k - |v|] && w[k - |v|] in w;
        }
      }
      FirstCommaIs(s, 0, |s|);
    } else {
      FirstCommaIs(s, 0, c);
      assert s[..c] == v[..c];
      assert s[c + 1..] == v[c + 1..] + w;
      SegmentsBeforeSuffix(v[c + 1..], w);
      var p := Segments(v);
      assert p[1..] == Segments(v[c + 1..]);
    }
  }

  /** Each piece trimmed. */
  function TrimAll(pieces: seq<string>): (r: seq<string>)
    ensures |r| == |pieces|
    ensures forall i :: 0 <= i < |r| ==> r[i] == Trim(pieces[i])
  {
    seq(|pieces|, i requires 0 <= i < |pieces| => Trim(pieces[i]))
  }

  lemma WhitespaceIsCommaFree(w: string)
    requires AllWhitespace(w)
    ensures CommaFree(w)
  {
    assert forall k :: 0 <= k < |w| ==> w[k] != ',';
  }

  /** Piecewise equal trims give equal trimmed sequences. */
  lemma TrimAllPointwise(p: seq<string>, q: seq<string>)
    requires |p| == |q|
    requires forall i :: 0 <= i < |p| ==> Trim(p[i]) == Trim(q[i])
    ensures TrimAll(p) == TrimAll(q)
  {
  }

  /** Whitespace before the first comma does not change the trimmed pieces. */
  lemma TrimAllAfterWhitespace(w: string, v: string)
    requires AllWhitespace(w)
    ensures TrimAll(Segments(w + v)) == TrimAll(Segments(v))
  {
    WhitespaceIsCommaFree(w);
    SegmentsAfterPrefix(w, v);
    var p := Segments(w + v);
    var q := Segments(v);
    TrimLeadingWhitespace(w, q[0]);
    TrimAllPointwise(p, q);
  }

  /** Whitespace after the last comma does not change the trimmed pieces. */
  lemma TrimAllBeforeWhitespace(v: string, w: string)
    requires AllWhitespace(w)
    ensures TrimAll(Segments(v + w)) == TrimAll(Segments(v))
  {
    WhitespaceIsCommaFree(w);
    SegmentsBeforeSuffix(v, w);
    var p := Segments(v + w);
    var q := Segments(v);
    var n := |q| - 1;
    forall i | 0 <= i < |p|
      ensures Trim(p[i]) == Trim(q[i])
    {
      if i == n {
        assert p[n] == q[n] + w;
        TrimTrailingWhitespace(q[n], w);
      } else {
        assert p[i] == q[..n][i];
      }
    }
    TrimAllPointwise(p, q);
  }

  /** Trimming the whole input first does not change the trimmed pieces. */
  lemma TrimAllOfTrimmed(s: string)
    ensures TrimAll(Segments(Trim(s))) == TrimAll(Segments(s))
  {
    var a := SkipWhitespace(s, 0);
    var t := Trim(s);
    var b := a + |t|;
    TrimStrips(s);
    assert s == s[..a] + (t + s[b..]);
    assert AllWhitespace(s[..a]);
    assert AllWhitespace(s[b..]);
    TrimAllAfterWhitespace(s[..a], t + s[b..]);
    TrimAllBeforeWhitespace(t, s[b..]);
  }

  // ---------------------------------------------------------------------------
  // The model of `String.split("\\s*,\\s*")`

  /** `s[p..e]` is whitespace, the comma at `c`, whitespace: a match of `\s*,\s*`. */
  predicate SeparatorAt(s: string, p: int, c: int, e: int) {
    && 0 <= p <= c < e <= |s|
    && s[c] == ','
    && (forall k :: p <= k < c ==> IsWhitespace(s[k]))
    && (forall k :: c < k < e ==> IsWhitespace(s[k]))
  }

  /** The separator pattern matches `s[p..e]`. */
  ghost predicate Separates(s: string, p: int, e: int) {
    exists c :: SeparatorAt(s, p, c, e)
  }

  /** The bounds of one match. */
  datatype Match = Match(start: int, end: int)

  /**
   The match `Matcher.find` reports when the search starts at `from`: the
   whitespace run before the first comma, the comma, and the whitespace run
   after it.
   */
  function FindSeparator(s: string, from: int): (m: Option<Match>)
    requires 0 <= from <= |s|
    ensures m.Some? ==> from <= m.value.start < m.value.end <= |s|
  {
    var c := FirstComma(s, from);
    if c == |s| then None else Some(Match(BackWhitespace(s, from, c), SkipWhitespace(s, c + 1)))
  }

  /** The search finds nothing exactly when no comma follows the search position. */
  lemma FindSeparatorNone(s: string, from: int)
    requires 0 <= from <= |s|
    ensures FindSeparator(s, from).None? <==> CommaFree(s[from..])
  {
    var c := FirstComma(s, from);
    assert c < |s| ==> s[from..][c - from] == ',';
    assert forall k :: 0 <= k < |s| - from ==> s[from..][k] == s[from + k];
  }

  /** What the search reports is a match of the separator pattern. */
  lemma FindSeparatorMatches(s: string, from: int)
    requires 0 <= from <= |s| && FindSeparator(s, from).Some?
    ensures Separates(s, FindSeparator(s, from).value.start, FindSeparator(s, from).value.end)
  {
    var m := FindSeparator(s, from).value;
    assert SeparatorAt(s, m.start, FirstComma(s, from), m.end);
  }

  /** No match starts between the search position and the reported match. */
  lemma FindSeparatorLeftmost(s: string, from: int, p: int, e: int)
    requires 0 <= from <= p <= |s|
    requires FindSeparator(s, from).None? || p < FindSeparator(s, from).value.start
    ensures !Separates(s, p, e)
  {
    var c := FirstComma(s, from);
    assert c < |s| ==> s[c] == ',';
    assert forall c' :: SeparatorAt(s, p, c', e) ==> s[c'] == ',' && from <= c';
  }

  /** Whitespace after the comma is taken greedily: no match at the same start ends later. */
  lemma FindSeparatorGreedy(s: string, from: int, e: int)
    requires 0 <= from <= |s| && FindSeparator(s, from).Some?
    requires Separates(s, FindSeparator(s, from).value.start, e)
    ensures e <= FindSeparator(s, from).value.end
  {
    var c := FirstComma(s, from);
    var m := FindSeparator(s, from).value;
    var c' :| SeparatorAt(s, m.start, c', e);
    assert s[c] == ',' && s[c'] == ',';
    assert c' == c;
  }

  /** The pieces `Pattern.split` collects from `index` on, before trailing empty pieces go. */
  function SplitFrom(s: string, index: int): (r: seq<string>)
    requires 0 <= index <= |s|
    ensures |r| >= 1
    decreases |s| - index
  {
    match FindSeparator(s, index)
    case None => [s[index..]]
    case Some(m) => [s[index..m.start]] + SplitFrom(s, m.end)
  }

  /** How many of the first `n` pieces remain once the empty pieces at their end are dropped. */
  function KeptCount(pieces: seq<string>, n: int): (m: int)
    requires 0 <= n <= |pieces|
    ensures 0 <= m <= n
    ensures m > 0 ==> pieces[m - 1] != ""
    ensures forall k :: m <= k < n ==> pieces[k] == ""
    decreases n
  {
    if n > 0 && pieces[n - 1] == "" then KeptCount(pieces, n - 1) else n
  }

  /** The longest prefix that does not end with an empty piece: the limit-zero clean-up of `Pattern.split`. */
  function DropTrailingEmpty(pieces: seq<string>): (r: seq<string>)
    ensures |r| <= |pieces| && r == pieces[..|r|]
    ensures |r| > 0 ==> r[|r| - 1] != ""
    ensures forall k :: |r| <= k < |pieces| ==> pieces[k] == ""
  {
    pieces[..KeptCount(pieces, |pieces|)]
  }

  /** A non-empty piece survives the removal of trailing empty pieces. */
  lemma DropTrailingEmptyKeeps(pieces: seq<string>, t: string)
    requires t != ""
    ensures t in DropTrailingEmpty(pieces) <==> t in pieces
  {
    var r := DropTrailingEmpty(pieces);
    if t in pieces {
      var i :| 0 <= i < |pieces| && pieces[i] == t;
      assert i < |r|;
      assert r[i] == t;
    }
  }

  /** An empty piece survives exactly when a non-empty piece comes after it. */
  lemma DropTrailingEmptyKeepsEmpty(pieces: seq<string>)
    ensures "" in DropTrailingEmpty(pieces)
        <==> exists i, j :: 0 <= i < j < |pieces| && pieces[i] == "" && pieces[j] != ""
  {
    var r := DropTrailingEmpty(pieces);
    if exists i, j :: 0 <= i < j < |pieces| && pieces[i] == "" && pieces[j] != "" {
      var i, j :| 0 <= i < j < |pieces| && pieces[i] == "" && pieces[j] != "";
      EmptyBeforeNonEmpty(pieces, i, j);
    }
    if "" in r {
      var i :| 0 <= i < |r| && r[i] == "";
      var n := |r| - 1;
      assert r[n] != "";
      assert i != n;
      assert r[i] == pieces[i] && r[n] == pieces[n];
    }
  }

  /** An empty piece followed by a non-empty one is kept. */
  lemma EmptyBeforeNonEmpty(pieces: seq<string>, i: int, j: int)
    requires 0 <= i < j < |pieces| && pieces[i] == "" && pieces[j] != ""
    ensures "" in DropTrailingEmpty(pieces)
  {
    var r := DropTrailingEmpty(pieces);
    assert j < |r|;
    assert r[i] == pieces[i];
  }

  /** `String.split` with the separator pattern and limit zero: an input without a match is returned whole. */
  function Split(s: string): seq<string> {
    if FindSeparator(s, 0).None? then [s] else DropTrailingEmpty(SplitFrom(s, 0))
  }

  /** The pieces of a suffix, cut at its first comma `c`. */
  lemma SegmentsFrom(s: string, index: int, c: int)
    requires 0 <= index <= |s| && c == FirstComma(s, index)
    ensures c == |s| ==> Segments(s[index..]) == [s[index..]]
    ensures c < |s| ==> Segments(s[index..]) == [s[index..c]] + Segments(s[c + 1..])
  {
    var t := s[index..];
    assert forall k :: 0 <= k < |t| ==> t[k] == s[index + k];
    FirstCommaIs(t, 0, c - index);
    assert t[..c - index] == s[index..c];
    assert c < |s| ==> t[c - index + 1..] == s[c + 1..];
  }

  /** Trimming a sequence of pieces that starts with `h`. */
  lemma TrimAllCons(h: string, rest: seq<string>)
    ensures TrimAll([h] + rest) == [Trim(h)] + TrimAll(rest)
  {
  }

  /** The pieces `Pattern.split` collects from a non-whitespace position are the trimmed comma-separated pieces. */
  lemma {:induction false} SplitFromIsTrimmedSegments(s: string, index: int)
    requires 0 <= index <= |s|
    requires index == |s| || !IsWhitespace(s[index])
    requires |s| == 0 || !IsWhitespace(s[|s| - 1])
    ensures SplitFrom(s, index) == TrimAll(Segments(s[index..]))
    decreases |s| - index
  {
    var c := FirstComma(s, index);
    match FindSeparator(s, index)
    case None =>
      LastPieceIsTrimmed(s, index, c);
    case Some(m) =>
      SplitFromIsTrimmedSegments(s, m.end);
      PieceBeforeSeparator(s, index, c, m.start, m.end);
  }

  /** Without a further comma, the rest of a string whose ends are not whitespace is one trimmed piece. */
  lemma LastPieceIsTrimmed(s: string, index: int, c: int)
    requires 0 <= index <= |s| && c == FirstComma(s, index) && c == |s|
    requires index == |s| || !IsWhitespace(s[index])
    requires |s| == 0 || !IsWhitespace(s[|s| - 1])
    ensures TrimAll(Segments(s[index..])) == [s[index..]]
  {
    var t := s[index..];
    SegmentsFrom(s, index, c);
    assert |t| > 0 ==> t[0] == s[index] && t[|t| - 1] == s[|s| - 1];
    TrimTrimmed(t);
    TrimAllCons(t, []);
    assert Segments(t) == [t] + [];
  }

  /** One step of the split: the piece before the separator is the trimmed piece before the comma. */
  lemma PieceBeforeSeparator(s: string, index: int, c: int, start: int, end: int)
    requires 0 <= index <= |s| && c == FirstComma(s, index) && c < |s|
    requires start == BackWhitespace(s, index, c) && end == SkipWhitespace(s, c + 1)
    requires index == |s| || !IsWhitespace(s[index])
    ensures TrimAll(Segments(s[index..])) == [s[index..start]] + TrimAll(Segments(s[end..]))
  {
    SegmentsFrom(s, index, c);
    HeadIsTrimmed(s, index, start, c);
    WhitespaceAfterComma(s, c, end);
    TrimAllCons(s[index..c], Segments(s[c + 1..]));
  }

  /** The whitespace the separator takes after a comma does not change the trimmed pieces that follow. */
  lemma WhitespaceAfterComma(s: string, c: int, end: int)
    requires 0 <= c < |s| && end == SkipWhitespace(s, c + 1)
    ensures TrimAll(Segments(s[c + 1..])) == TrimAll(Segments(s[end..]))
  {
    var w := s[c + 1..end];
    assert s[c + 1..] == w + s[end..];
    assert AllWhitespace(w);
    TrimAllAfterWhitespace(w, s[end..]);
  }

  /** The piece before a match is the trimmed text before the comma. */
  lemma HeadIsTrimmed(s: string, index: int, start: int, c: int)
    requires 0 <= index <= start <= c <= |s|
    requires index == |s| || !IsWhitespace(s[index])
    requires start > index ==> !IsWhitespace(s[start - 1])
    requires forall k :: start <= k < c ==> IsWhitespace(s[k])
    ensures Trim(s[index..c]) == s[index..start]
  {
    var u := s[index..c];
    var r := s[index..start];
    assert u[0..|r|] == r;
    assert forall k :: |r| <= k < |u| ==> u[k] == s[index + k];
    assert |r| > 0 ==> r[0] == s[index] && r[|r| - 1] == s[start - 1];
    TrimOfStrip(u, 0, r);
  }

  /** On a trimmed, non-empty string the regular-expression split is the comma split with trimmed pieces and no trailing empty pieces. */
  lemma SplitIsTrimmedCommaSplit(s: string)
    requires Trimmed(s) && |s| > 0
    ensures Split(s) == DropTrailingEmpty(TrimAll(Segments(s)))
  {
    SplitFromIsTrimmedSegments(s, 0);
    assert s[0..] == s;
    if FindSeparator(s, 0).None? {
      TrimTrimmed(s);
      assert Segments(s) == [s];
    }
  }

  // ---------------------------------------------------------------------------
  // The tokenizer

  /**
   The set of tokens in a comma-separated string: a missing or blank input
   has none; otherwise they are the input's comma-separated pieces, trimmed,
   an empty piece counting only when a non-empty one follows it.
   */
  function Tokenize(input: Option<string>): (r: set<string>)
    ensures IsBlank(input) ==> r == {}
    ensures !IsBlank(input) ==> r == Elements(DropTrailingEmpty(TrimAll(Segments(input.value))))
  {
    if IsBlank(input) then
      {}
    else
      SplitOfTrimmedInput(input.value);
      Elements(Split(Trim(input.value)))
  }

  /** Every token is free of commas, carries no surrounding whitespace, and occurs in the trimmed input. */
  lemma TokenShape(input: Option<string>, t: string)
    requires t in Tokenize(input)
    ensures input.Some?
    ensures CommaFree(t) && Trimmed(t)
    ensures IsSubstring(t, Trim(input.value))
  {
    var s := Trim(input.value);
    assert t in Split(s);
    SplitPieceShape(s, t);
  }

  /** A non-blank input without commas is one token: the trimmed input. */
  lemma TokenizeWithoutComma(x: string)
    requires !AllWhitespace(x) && CommaFree(x)
    ensures Tokenize(Some(x)) == {Trim(x)}
  {
    SplitWithoutComma(x);
  }

  /** The set of elements of a sequence. */
  function Elements(xs: seq<string>): (r: set<string>)
    ensures forall t :: t in r <==> t in xs
  {
    set t | t in xs
  }

  /** The split of the trimmed input is the comma split of the raw input, trimmed piece by piece. */
  lemma SplitOfTrimmedInput(x: string)
    requires !AllWhitespace(x)
    ensures Split(Trim(x)) == DropTrailingEmpty(TrimAll(Segments(x)))
  {
    SplitIsTrimmedCommaSplit(Trim(x));
    TrimAllOfTrimmed(x);
  }

  /** One piece of the split of a trimmed string. */
  lemma SplitPieceShape(s: string, t: string)
    requires Trimmed(s) && |s| > 0 && t in Split(s)
    ensures CommaFree(t) && Trimmed(t) && IsSubstring(t, s)
  {
    SplitIsTrimmedCommaSplit(s);
    var p := Segments(s);
    var q := TrimAll(p);
    assert t in q;
    var i :| 0 <= i < |q| && q[i] == t;
    SegmentOccurs(s, i);
    TrimStrips(p[i]);
    assert OccursAt(t, p[i], SkipWhitespace(p[i], 0));
    SubstringTransitive(t, p[i], s);
    if ',' in t {
      SubstringChars(t, p[i], ',');
    }
  }

  /** Every piece of the split of a trimmed string. */
  lemma SplitPiecesShape(s: string)
    requires Trimmed(s) && |s| > 0
    ensures forall t :: t in Split(s) ==> CommaFree(t) && Trimmed(t) && IsSubstring(t, s)
  {
    forall t | t in Split(s)
      ensures CommaFree(t) && Trimmed(t) && IsSubstring(t, s)
    {
      SplitPieceShape(s, t);
    }
  }

  /** An input without commas splits into its trimmed self. */
  lemma SplitWithoutComma(x: string)
    requires !AllWhitespace(x) && CommaFree(x)
    ensures Split(Trim(x)) == [Trim(x)]
  {
    var s := Trim(x);
    TrimStrips(x);
    assert OccursAt(s, x, SkipWhitespace(x, 0));
    if ',' in s {
      SubstringChars(s, x, ',');
    }
    FirstCommaIs(s, 0, |s|);
    assert s[0..] == s;
  }

  /** A non-empty string survives trimming and clean-up exactly when some piece trims to it. */
  lemma TrimmedPieceKept(p: seq<string>, t: string)
    requires t != ""
    ensures t in DropTrailingEmpty(TrimAll(p)) <==> exists i :: 0 <= i < |p| && Trim(p[i]) == t
  {
    var q := TrimAll(p);
    DropTrailingEmptyKeeps(q, t);
    if t in q {
      var i :| 0 <= i < |q| && q[i] == t;
      assert Trim(p[i]) == t;
    }
    if exists i :: 0 <= i < |p| && Trim(p[i]) == t {
      var i :| 0 <= i < |p| && Trim(p[i]) == t;
      assert q[i] == t;
    }
  }

  /** The empty string survives trimming and clean-up exactly when a piece trimming to nothing precedes one that does not. */
  lemma EmptyPieceKept(p: seq<string>)
    ensures "" in DropTrailingEmpty(TrimAll(p))
        <==> exists i, j :: 0 <= i < j < |p| && Trim(p[i]) == "" && Trim(p[j]) != ""
  {
    var q := TrimAll(p);
    DropTrailingEmptyKeepsEmpty(q);
    if exists i, j :: 0 <= i < j < |p| && Trim(p[i]) == "" && Trim(p[j]) != "" {
      var i, j :| 0 <= i < j < |p| && Trim(p[i]) == "" && Trim(p[j]) != "";
      assert q[i] == "" && q[j] != "";
    }
  }

  /** A non-empty token is in the result exactly when some comma-separated piece of the input trims to it. */
  lemma TokenMembership(x: string, t: string)
    requires !AllWhitespace(x) && t != ""
    ensures t in Tokenize(Some(x)) <==> exists i :: 0 <= i < |Segments(x)| && Trim(Segments(x)[i]) == t
  {
    ReferenceMembership(x, Segments(x), t);
    TrimmedPieceKept(Segments(x), t);
  }

  /** Membership in the tokens is membership in the kept, trimmed pieces `p` of the input. */
  lemma ReferenceMembership(x: string, p: seq<string>, t: string)
    requires !AllWhitespace(x) && p == Segments(x)
    ensures t in Tokenize(Some(x)) <==> t in DropTrailingEmpty(TrimAll(p))
  {
  }

  /** The empty token is in the result exactly when a piece that trims to nothing precedes one that does not. */
  lemma EmptyTokenMembership(x: string)
    requires !AllWhitespace(x)
    ensures "" in Tokenize(Some(x))
        <==> exists i, j :: 0 <= i < j < |Segments(x)| && Trim(Segments(x)[i]) == "" && Trim(Segments(x)[j]) != ""
  {
    ReferenceMembership(x, Segments(x), "");
    EmptyPieceKept(Segments(x));
  }

  /** The tokens of an input glued together from comma-free pieces are what is kept of those pieces, trimmed. */
  lemma TokensFromPieces(x: string, pieces: seq<string>)
    requires |pieces| >= 1 && forall i :: 0 <= i < |pieces| ==> CommaFree(pieces[i])
    requires x == Join(pieces) && !AllWhitespace(x)
    ensures Tokenize(Some(x)) == Elements(DropTrailingEmpty(TrimAll(pieces)))
  {
    SegmentsJoin(pieces);
  }
}
