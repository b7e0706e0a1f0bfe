/**
 The normal form of whole lines (alert_dedup.go), given word by word, and of single words, given by their characters.
 */
module AlertNormal {
  import opened TextRewrite
  import opened AlertText
  import opened AlertTimestamps
  import opened AlertWords
  import opened AlertLines
  import opened AlertPatterns

  // ----- characters

  const DIGITS := "0123456789"
  const CAPITALS := "ABCDEFGHIJKLMNOPQRSTUVWXYZ"
  const LETTERS := "abcdefghijklmnopqrstuvwxyz"

  lemma CapitalsByMembers(c: char)
    ensures IsUpper(c) <==> c in CAPITALS
  {
    if 'A' <= c <= 'Z' {
      assert CAPITALS[c as int - 'A' as int] == c;
    }
  }

  lemma LettersByMembers(c: char)
    ensures 'a' <= c <= 'z' <==> c in LETTERS
  {
    if 'a' <= c <= 'z' {
      assert LETTERS[c as int - 'a' as int] == c;
    }
  }

  lemma DigitsByMembers(c: char)
    ensures IsDigit(c) <==> c in DIGITS
  {
    if '0' <= c <= '9' {
      assert DIGITS[c as int - '0' as int] == c;
    }
  }

  lemma HexByMembers(c: char)
    ensures IsDigit(c) <==> c in DIGITS
    ensures IsHexDigit(c) <==> c in DIGITS || c in "abcdefABCDEF"
  {
    DigitsByMembers(c);
    var letters := "abcdefABCDEF";
    if 'a' <= c <= 'f' {
      assert letters[c as int - 'a' as int] == c;
    } else if 'A' <= c <= 'F' {
      assert letters[6 + c as int - 'A' as int] == c;
    }
  }

  lemma WordsByMembers(c: char)
    ensures IsWord(c) <==> c in DIGITS || c in CAPITALS || c in LETTERS || c == '_'
    ensures IsSeparator(c) <==> !(c in DIGITS || c in CAPITALS || c in LETTERS || c in "_-.:[]")
  {
    DigitsByMembers(c);
    CapitalsByMembers(c);
    LettersByMembers(c);
    var marks := "_-.:[]";
    assert marks[0] == '_' && marks[1] == '-' && marks[2] == '.' && marks[3] == ':' && marks[4] == '[';
    assert marks[5] == ']';
  }

  lemma BlanksByMembers(c: char)
    ensures IsSpace(c) <==> c in " \t\n\r\U{0C}"
    ensures IsTrimmed(c) <==> c in " \t\n\r\U{0C}\U{0B}"
  {
    var blanks := " \t\n\r\U{0C}\U{0B}";
    assert blanks[0] == ' ' && blanks[1] == '\t' && blanks[2] == '\n' && blanks[3] == '\r' && blanks[4] == '\U{0C}';
    assert blanks[5] == '\U{0B}' && " \t\n\r\U{0C}" == blanks[..5];
  }

  /** Capital letters are lowered, everything else is kept. */
  lemma LowerByMembers(s: string, i: nat)
    requires i < |s|
    ensures forall k :: 0 <= k < 26 && s[i] == CAPITALS[k] ==> ToLower(s)[i] == LETTERS[k]
    ensures s[i] !in CAPITALS ==> ToLower(s)[i] == s[i]
  {
    CapitalsByMembers(s[i]);
  }

  // ----- words

  /** Only letters, digits and underscores. */
  predicate IsIdentifier(w: string) { w != [] && forall i :: 0 <= i < |w| ==> IsWord(w[i]) }

  lemma {:induction false} InsideIsFree(q: Pattern, w: string)
    requires q != BracketedIp6 && forall i :: 0 <= i < |w| ==> IsWord(w[i])
    ensures Free(Finder(q), true, w)
  {
    if w == [] {
    } else {
      var n := Finder(q)(true, w);
      if n > 0 {
        MatchShape(q, true, w, n);
      }
      InsideIsFree(q, w[1..]);
    }
  }

  /** A pattern matches all of an identifier or none of it. */
  lemma MatchIsWhole(q: Pattern, w: string, n: nat)
    requires q != BracketedIp6 && IsIdentifier(w) && Matches(q, false, w, n)
    ensures InLanguage(q, w)
  {
    MatchShape(q, false, w, n);
    assert w[..|w|] == w;
  }

  lemma IdentifierIsFree(q: Pattern, w: string)
    requires IsIdentifier(w) && !InLanguage(q, w)
    ensures Free(Finder(q), false, w)
  {
    if q == BracketedIp6 {
      UnmarkedIsFree(q, false, w);
    } else {
      var n := Finder(q)(false, w);
      if n > 0 {
        MatchIsWhole(q, w, n);
      }
      InsideIsFree(q, w[1..]);
    }
  }

  lemma IdentifierIsKept(w: string)
    requires IsIdentifier(w) && !InLanguage(Hex, w) && !InLanguage(Number, w)
    ensures ReplacePatterns(w) == w
  {
    forall q ensures Free(Finder(q), false, w) {
      if q == Hex || q == Number {
        IdentifierIsFree(q, w);
      } else {
        UnmarkedIsFree(q, false, w);
      }
    }
    PatternsUnchanged(w);
  }

  lemma LowerKeepsHexDigits(w: string, i: nat)
    requires i < |w|
    ensures IsHexDigit(ToLower(w)[i]) <==> IsHexDigit(w[i])
    ensures IsDigit(ToLower(w)[i]) <==> IsDigit(w[i])
  {
  }

  lemma LowerKeepsNumbers(w: string)
    ensures InLanguage(Hex, ToLower(w)) <==> InLanguage(Hex, w)
    ensures InLanguage(Number, ToLower(w)) <==> InLanguage(Number, w)
  {
    var t := ToLower(w);
    assert forall i :: 0 <= i < |w| ==> (IsHexDigit(t[i]) <==> IsHexDigit(w[i])) && (IsDigit(t[i]) <==> IsDigit(w[i]));
  }

  /**
   A word of letters, digits and underscores is masked as a whole if it is a long decimal or a hexadecimal number; else
   it is only lowered.
   */
  lemma IdentifiersAreMasked(w: string)
    requires IsIdentifier(w)
    ensures Masked(w) ==
            if |w| >= 4 && forall i :: 0 <= i < |w| ==> w[i] in DIGITS then "<n>"
            else if |w| >= 3 && w[0] == '0' && (w[1] == 'x' || w[1] == 'X')
                    && forall i :: 2 <= i < |w| ==> w[i] in DIGITS || w[i] in "abcdefABCDEF" then "<hex>"
            else ToLower(w)
  {
    LowerKeepsNumbers(w);
    forall i | 0 <= i < |w|
      ensures IsDigit(w[i]) <==> w[i] in DIGITS
      ensures IsHexDigit(w[i]) <==> w[i] in DIGITS || w[i] in "abcdefABCDEF"
    {
      HexByMembers(w[i]);
    }
    if InLanguage(Number, w) {
      ValueIsMasked(Number, ToLower(w));
    } else if InLanguage(Hex, w) {
      ValueIsMasked(Hex, ToLower(w));
    } else {
      IdentifierIsKept(ToLower(w));
    }
  }

  // ----- lines

  /** A word of a line, and the separators before it. */
  datatype Piece = Piece(gap: string, word: string)

  predicate AllSeparators(s: string) { forall i :: 0 <= i < |s| ==> IsSeparator(s[i]) }

  function TextOf(pieces: seq<Piece>, tail: string): string {
    if pieces == [] then tail else pieces[0].gap + (pieces[0].word + TextOf(pieces[1..], tail))
  }

  /** The words and what separates them, with separators between any two words. */
  ghost predicate IsLine(pieces: seq<Piece>, tail: string) {
    && AllSeparators(tail)
    && forall i :: 0 <= i < |pieces| ==>
         && AllSeparators(pieces[i].gap) && (i > 0 ==> pieces[i].gap != [])
         && pieces[i].word != [] && NoSeparator(pieces[i].word)
  }

  lemma {:induction false} SeparatorsAreFree(q: Pattern, afterWord: bool, g: string)
    requires AllSeparators(g)
    ensures Free(Finder(q), afterWord, g)
    decreases |g|
  {
    if g == [] {
    } else {
      var n := Finder(q)(afterWord, g);
      if n > 0 {
        MatchShape(q, afterWord, g, n);
      }
      SeparatorsAreFree(q, IsWord(g[0]), g[1..]);
    }
  }

  lemma NoFieldOfSeparators(g: string)
    requires AllSeparators(g)
    ensures TimestampField(g).1 == 0
  {
    if KeyLength(g) > 0 {
      KeyBegins(g);
    }
  }

  lemma SeparatorsAreKept(g: string)
    requires AllSeparators(g)
    ensures Prepared(g) == g && ReplacePatterns(g) == g
  {
    assert ToLower(g) == g;
    forall i | 0 <= i < |g| ensures TimestampField(g[i..]).1 == 0 {
      NoFieldOfSeparators(g[i..]);
    }
    NoFieldsUnchanged(TimestampFinder(), "<timestamp>", g);
    forall q ensures Free(Finder(q), false, g) {
      SeparatorsAreFree(q, false, g);
    }
    PatternsUnchanged(g);
  }

  /** The normal form of what follows a word. */
  function NormalRest(pieces: seq<Piece>, tail: string): string {
    if pieces == [] then TrimRight(CollapseSpace(tail))
    else CollapseSpace(pieces[0].gap) + (Masked(pieces[0].word) + NormalRest(pieces[1..], tail))
  }

  lemma BackThroughWord(g: string, w: string, b: string)
    requires AllSeparators(g) && Around(g, b) && IsPlainWord(ToLower(w))
    ensures Back(g + (w + b)) == CollapseSpace(g) + (Masked(w) + Back(b))
  {
    var m, y := Masked(w), ReplacePatterns(Prepared(b));
    MaskedLine(g, w, b);
    SeparatorsAreKept(g);
    MaskedIsSolid(w);
    assert (m + y)[0] == m[0];
    CollapseSplits(false, g, m + y);
    SolidIsCopied(false, m, y);
    Prepend(CollapseSpace(g), m, CollapseSpace(y));
    TrimRightStops(CollapseSpace(g) + m, CollapseSpace(y));
    Prepend(CollapseSpace(g), m, Back(b));
  }

  lemma RestOfLine(pieces: seq<Piece>, tail: string)
    requires pieces != [] && IsLine(pieces, tail)
    ensures IsLine(pieces[1..], tail) && Around(pieces[0].gap, TextOf(pieces[1..], tail))
    ensures |pieces| > 1 ==> pieces[1..][0].gap != []
  {
  }

  lemma {:induction false} BackOfLine(pieces: seq<Piece>, tail: string)
    requires IsLine(pieces, tail) && forall p :: p in pieces ==> IsPlainWord(ToLower(p.word))
    ensures Back(TextOf(pieces, tail)) == NormalRest(pieces, tail)
  {
    if pieces == [] {
      SeparatorsAreKept(tail);
    } else {
      RestOfLine(pieces, tail);
      BackThroughWord(pieces[0].gap, pieces[0].word, TextOf(pieces[1..], tail));
      BackOfLine(pieces[1..], tail);
    }
  }

  /**
   A line whose words are none of a timestamp field is normalised word by word, with the blanks in the separators
   between them collapsed, and its ends trimmed.
   */
  lemma LineIsNormalized(pieces: seq<Piece>, tail: string)
    requires pieces != [] && IsLine(pieces, tail) && forall p :: p in pieces ==> IsPlainWord(ToLower(p.word))
    ensures Normalize(TextOf(pieces, tail))
            == TrimLeft(CollapseSpace(pieces[0].gap)) + (Masked(pieces[0].word) + NormalRest(pieces[1..], tail))
  {
    var g, w, b := pieces[0].gap, pieces[0].word, TextOf(pieces[1..], tail);
    RestOfLine(pieces, tail);
    NormalizedLine(g, w, b);
    SeparatorsAreKept(g);
    BackOfLine(pieces[1..], tail);
  }

  /** Every text is such a line. */
  lemma {:induction false} EveryTextIsALine(s: string) returns (pieces: seq<Piece>, tail: string)
    ensures TextOf(pieces, tail) == s && IsLine(pieces, tail)
  {
    if s == [] {
      pieces, tail := [], [];
    } else {
      pieces, tail := EveryTextIsALine(s[1..]);
      var c := [s[0]];
      assert s == c + s[1..];
      if IsSeparator(s[0]) && pieces == [] {
        tail := c + tail;
      } else if IsSeparator(s[0]) {
        Prepend(c, pieces[0].gap, pieces[0].word + TextOf(pieces[1..], tail));
        pieces := [Piece(c + pieces[0].gap, pieces[0].word)] + pieces[1..];
      } else if pieces != [] && pieces[0].gap == [] {
        Prepend(c, pieces[0].word, TextOf(pieces[1..], tail));
        assert [] + (pieces[0].word + TextOf(pieces[1..], tail)) == pieces[0].word + TextOf(pieces[1..], tail);
        pieces := [Piece([], c + pieces[0].word)] + pieces[1..];
      } else {
        var more := [Piece([], c)] + pieces;
        assert more[1..] == pieces;
        pieces := more;
      }
    }
  }

  // ----- what the pieces of a line become

  /** Blanks become one blank, and are dropped at the ends; other separators are kept. */
  lemma SeparatorsCollapse(g: string)
    ensures g != [] && (forall i :: 0 <= i < |g| ==> g[i] in " \t\n\r\U{0C}") ==>
              CollapseSpace(g) == " " && TrimLeft(CollapseSpace(g)) == "" && TrimRight(CollapseSpace(g)) == ""
    ensures (forall i :: 0 <= i < |g| ==> g[i] !in " \t\n\r\U{0C}\U{0B}") ==>
              CollapseSpace(g) == g && TrimLeft(CollapseSpace(g)) == g && TrimRight(CollapseSpace(g)) == g
  {
    forall i | 0 <= i < |g|
      ensures IsSpace(g[i]) <==> g[i] in " \t\n\r\U{0C}"
      ensures IsTrimmed(g[i]) <==> g[i] in " \t\n\r\U{0C}\U{0B}"
    {
      BlanksByMembers(g[i]);
    }
    if g != [] && forall i :: 0 <= i < |g| ==> IsSpace(g[i]) {
      BlankRun(g, []);
      assert g + [] == g;
      WholeMatch(Blanks(), " ", false, g);
      assert " "[1..] == "" && " "[..0] == "";
    }
    if forall i :: 0 <= i < |g| ==> !IsTrimmed(g[i]) {
      SolidIsCopied(false, g, []);
      assert g + [] == g && g + CollapseSpace([]) == g;
    }
  }

  /** A volatile value becomes the token of its kind. */
  lemma ValuesBecomeTokens(q: Pattern, w: string)
    requires Denotes(Expression(q), w)
    ensures Masked(w) == match q
                         case Uuid => "<uuid>"
                         case BracketedIp6 => "<ip6>"
                         case Ip4 => "<ip>"
                         case Hex => "<hex>"
                         case Number => "<n>"
  {
    PatternsAreTheirExpressions(q, w);
    ValueBecomesToken(q, w);
  }
}
