/**
 Worked cases of the tokenizer: repeated tokens, order, and the empty pieces
 `String.split` keeps or drops. Each case glues its input together from
 comma-free pieces and reads the tokens off those pieces.
 */
module TokenizerExamples {
  import opened Results
  import opened Text
  import opened Tokenizer

  lemma JoinTwo(p: string, q: string)
    ensures Join([p, q]) == p + "," + q
  {
    assert [p, q][1..] == [q];
  }

  lemma JoinThree(p: string, q: string, r: string)
    ensures Join([p, q, r]) == p + "," + q + "," + r
  {
    assert [p, q, r][1..] == [q, r];
    JoinTwo(q, r);
  }

  lemma TrimAllTwo(p: string, q: string)
    ensures TrimAll([p, q]) == [Trim(p), Trim(q)]
  {
  }

  lemma TrimAllThree(p: string, q: string, r: string)
    ensures TrimAll([p, q, r]) == [Trim(p), Trim(q), Trim(r)]
  {
  }

  /** Pieces that end with a non-empty piece are all kept. */
  lemma KeptWhole(pieces: seq<string>)
    requires |pieces| > 0 && pieces[|pieces| - 1] != ""
    ensures DropTrailingEmpty(pieces) == pieces
  {
  }

  lemma CommaFreeAppend(u: string, v: string)
    requires CommaFree(u) && CommaFree(v)
    ensures CommaFree(u + v)
  {
    assert forall k :: 0 <= k < |u + v| ==> (u + v)[k] == (if k < |u| then u[k] else v[k - |u|]);
  }

  /** A string that begins like a trimmed, non-empty string is not blank. */
  lemma NotBlankStart(s: string, u: string)
    requires |u| > 0 && Trimmed(u) && |s| > 0 && s[0] == u[0]
    ensures !AllWhitespace(s)
  {
  }

  lemma SpaceIsWhitespace()
    ensures AllWhitespace(" ") && CommaFree(" ")
  {
  }

  /** A comma followed by a piece that starts with a space reads as ", ". */
  lemma CommaSpace(u: string, v: string)
    ensures u + "," + (" " + v) == u + ", " + v
  {
  }

  /** The pieces of "a, b, a" glue back to it. */
  lemma RepeatedJoin(a: string, b: string)
    ensures Join([a, " " + b, " " + a]) == a + ", " + b + ", " + a
  {
    JoinThree(a, " " + b, " " + a);
    CommaSpace(a, b);
    CommaSpace(a + ", " + b, a);
  }

  /** The pieces of "a, b, a": "a", " b" and " a". */
  lemma RepeatedPieces(a: string, b: string, pieces: seq<string>)
    requires |a| > 0 && Trimmed(a) && CommaFree(a) && CommaFree(b)
    requires pieces == [a, " " + b, " " + a]
    ensures |pieces| >= 1 && forall i :: 0 <= i < |pieces| ==> CommaFree(pieces[i])
    ensures Join(pieces) == a + ", " + b + ", " + a
    ensures !AllWhitespace(Join(pieces))
  {
    SpaceIsWhitespace();
    CommaFreeAppend(" ", b);
    CommaFreeAppend(" ", a);
    RepeatedJoin(a, b);
    NotBlankStart(Join(pieces), a);
  }

  /** What is kept of the pieces of "a, b, a" once trimmed. */
  lemma RepeatedPiecesKept(a: string, b: string)
    requires |a| > 0 && Trimmed(a) && Trimmed(b)
    ensures DropTrailingEmpty(TrimAll([a, " " + b, " " + a])) == [a, b, a]
  {
    SpaceIsWhitespace();
    TrimAllThree(a, " " + b, " " + a);
    TrimTrimmed(a);
    TrimTrimmed(b);
    TrimLeadingWhitespace(" ", b);
    TrimLeadingWhitespace(" ", a);
    KeptWhole([a, b, a]);
  }

  lemma ElementsRepeated(a: string, b: string)
    ensures Elements([a, b, a]) == {a, b}
  {
  }

  /** Repeated tokens collapse, and whitespace after a comma is not part of a token. */
  lemma RepeatedTokensCollapse(a: string, b: string)
    requires |a| > 0 && Trimmed(a) && CommaFree(a)
    requires |b| > 0 && Trimmed(b) && CommaFree(b)
    ensures Tokenize(Some(a + ", " + b + ", " + a)) == {a, b}
  {
    var x := a + ", " + b + ", " + a;
    var pieces := [a, " " + b, " " + a];
    RepeatedPieces(a, b, pieces);
    RepeatedPiecesKept(a, b);
    ElementsRepeated(a, b);
    TokensFromPieces(x, pieces);
  }

  /** The pieces of "b,a": "b" and "a", both kept as they are. */
  lemma SwappedPieces(a: string, b: string, pieces: seq<string>)
    requires |a| > 0 && Trimmed(a) && CommaFree(a)
    requires |b| > 0 && Trimmed(b) && CommaFree(b)
    requires pieces == [b, a]
    ensures |pieces| >= 1 && forall i :: 0 <= i < |pieces| ==> CommaFree(pieces[i])
    ensures Join(pieces) == b + "," + a
    ensures !AllWhitespace(Join(pieces))
    ensures DropTrailingEmpty(TrimAll(pieces)) == pieces
  {
    JoinTwo(b, a);
    NotBlankStart(Join(pieces), b);
    TrimAllTwo(b, a);
    TrimTrimmed(a);
    TrimTrimmed(b);
    KeptWhole(pieces);
  }

  lemma ElementsSwapped(a: string, b: string)
    ensures Elements([b, a]) == {a, b}
  {
  }

  /** "b,a" has the tokens `a` and `b`. */
  lemma SwappedTokens(a: string, b: string)
    requires |a| > 0 && Trimmed(a) && CommaFree(a)
    requires |b| > 0 && Trimmed(b) && CommaFree(b)
    ensures Tokenize(Some(b + "," + a)) == {a, b}
  {
    var pieces := [b, a];
    SwappedPieces(a, b, pieces);
    ElementsSwapped(a, b);
    TokensFromPieces(b + "," + a, pieces);
  }

  /** The order of the tokens does not matter: "b,a" gives what "a, b, a" gives. */
  lemma TokenOrderIrrelevant(a: string, b: string)
    requires |a| > 0 && Trimmed(a) && CommaFree(a)
    requires |b| > 0 && Trimmed(b) && CommaFree(b)
    ensures Tokenize(Some(b + "," + a)) == Tokenize(Some(a + ", " + b + ", " + a))
  {
    SwappedTokens(a, b);
    RepeatedTokensCollapse(a, b);
  }

  /** The pieces of ",": two empty pieces, both dropped as trailing empty pieces. */
  lemma LoneCommaPieces(pieces: seq<string>)
    requires pieces == ["", ""]
    ensures |pieces| >= 1 && forall i :: 0 <= i < |pieces| ==> CommaFree(pieces[i])
    ensures Join(pieces) == "," && !AllWhitespace(",")
    ensures DropTrailingEmpty(TrimAll(pieces)) == []
  {
    JoinTwo("", "");
    assert "" + "," + "" == ",";
    assert !IsWhitespace(","[0]);
    TrimAllTwo("", "");
    assert Trim("") == "";
  }

  /** A lone comma gives no tokens: both pieces are empty and trailing empty pieces are dropped. */
  lemma LoneCommaHasNoTokens()
    ensures Tokenize(Some(",")) == {}
  {
    var pieces := ["", ""];
    LoneCommaPieces(pieces);
    TokensFromPieces(",", pieces);
  }

  /** The pieces of ",a": an empty piece, kept because `a` follows it, and `a`. */
  lemma LeadingCommaPieces(a: string, pieces: seq<string>)
    requires |a| > 0 && Trimmed(a) && CommaFree(a)
    requires pieces == ["", a]
    ensures |pieces| >= 1 && forall i :: 0 <= i < |pieces| ==> CommaFree(pieces[i])
    ensures Join(pieces) == "," + a
    ensures !AllWhitespace(Join(pieces))
    ensures DropTrailingEmpty(TrimAll(pieces)) == pieces
  {
    JoinTwo("", a);
    assert "" + "," + a == "," + a;
    assert Join(pieces)[0] == ',';
    TrimAllTwo("", a);
    assert Trim("") == "";
    TrimTrimmed(a);
    KeptWhole(pieces);
  }

  lemma ElementsLeadingEmpty(a: string)
    ensures Elements(["", a]) == {"", a}
  {
  }

  /** A leading comma gives an empty token, because only trailing empty pieces are dropped. */
  lemma LeadingCommaGivesEmptyToken(a: string)
    requires |a| > 0 && Trimmed(a) && CommaFree(a)
    ensures Tokenize(Some("," + a)) == {"", a}
  {
    var pieces := ["", a];
    LeadingCommaPieces(a, pieces);
    ElementsLeadingEmpty(a);
    TokensFromPieces("," + a, pieces);
  }
}
