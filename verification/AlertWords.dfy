/**
 What the normaliser does to the words of a text (alert_dedup.go): it treats the stretches between separators one by
 one, puts a token for a volatile value, and so makes lines alike that differ in such values only.
 */
module AlertWords {
  import opened TextRewrite
  import opened AlertText
  import opened AlertTimestamps

  lemma MatchEndsBeforeSeparator(q: Pattern, afterWord: bool, a: string, u: string, n: nat)
    requires StartsApart(u)
    ensures Matches(q, afterWord, a + u, n) <==> Matches(q, afterWord, a, n)
  {
    var s := a + u;
    if n <= |a| {
      assert s[..n] == a[..n];
    } else if n <= |s| {
      assert s[|a|] == u[0];
      if Matches(q, afterWord, s, n) {
        MatchShape(q, afterWord, s, n);
      }
    }
  }

  lemma FinderIsWordByWord(q: Pattern)
    ensures WordByWord(Finder(q))
  {
    var m := Finder(q);
    FinderLaws(q);
    forall afterWord, a, u ensures Cut(m, afterWord, a, u) {
      if StartsApart(u) {
        var n, k := m(afterWord, a + u), m(afterWord, a);
        MatchEndsBeforeSeparator(q, afterWord, a, u, n);
        MatchEndsBeforeSeparator(q, afterWord, a, u, k);
        if n > 0 && k > 0 {
          UniqueMatch(q, afterWord, a, n, k);
        }
      }
    }
  }

  lemma ReplaceSplits(q: Pattern, a: string, u: string)
    requires StartsApart(u)
    ensures Replace(q, a + u) == Replace(q, a) + Replace(q, u) && StartsApart(Replace(q, u))
  {
    FinderIsWordByWord(q);
    SplitsAtSeparator(Finder(q), Token(q), false, a, u);
    if u != [] {
      SeparatorIsKept(Finder(q), Token(q), false, u);
    }
  }

  lemma ReplaceKeepsSeparator(q: Pattern, c: char, u: string)
    requires IsSeparator(c)
    ensures Replace(q, [c] + u) == [c] + Replace(q, u)
  {
    FinderIsWordByWord(q);
    SeparatorIsKept(Finder(q), Token(q), false, [c] + u);
    assert ([c] + u)[1..] == u;
  }

  lemma PatternsSplit(a: string, u: string)
    requires StartsApart(u)
    ensures ReplacePatterns(a + u) == ReplacePatterns(a) + ReplacePatterns(u)
  {
    ReplaceSplits(Uuid, a, u);
    var a1, u1 := Replace(Uuid, a), Replace(Uuid, u);
    ReplaceSplits(BracketedIp6, a1, u1);
    var a2, u2 := Replace(BracketedIp6, a1), Replace(BracketedIp6, u1);
    ReplaceSplits(Ip4, a2, u2);
    var a3, u3 := Replace(Ip4, a2), Replace(Ip4, u2);
    ReplaceSplits(Hex, a3, u3);
    ReplaceSplits(Number, Replace(Hex, a3), Replace(Hex, u3));
  }

  lemma PatternsKeepSeparator(c: char, u: string)
    requires IsSeparator(c)
    ensures ReplacePatterns([c] + u) == [c] + ReplacePatterns(u)
  {
    ReplaceKeepsSeparator(Uuid, c, u);
    var u1 := Replace(Uuid, u);
    ReplaceKeepsSeparator(BracketedIp6, c, u1);
    var u2 := Replace(BracketedIp6, u1);
    ReplaceKeepsSeparator(Ip4, c, u2);
    var u3 := Replace(Ip4, u2);
    ReplaceKeepsSeparator(Hex, c, u3);
    ReplaceKeepsSeparator(Number, c, Replace(Hex, u3));
  }

  /** What stands on one side of a separator has no influence on what becomes of the other side. */
  lemma PatternsSeparate()
    ensures Separates(ReplacePatterns)
  {
    forall a, u ensures Splits(ReplacePatterns, a, u) {
      if StartsApart(u) {
        PatternsSplit(a, u);
      }
    }
    forall c, u ensures Keeps(ReplacePatterns, c, u) {
      if IsSeparator(c) {
        PatternsKeepSeparator(c, u);
      }
    }
  }

  // ----- a volatile value becomes its token

  /** A character that every match of the pattern contains. */
  predicate IsMark(q: Pattern, c: char) {
    match q
    case Uuid => c == '-'
    case BracketedIp6 => c == '['
    case Ip4 => c == '.'
    case Hex => c == 'x' || c == 'X'
    case Number => IsDigit(c)
  }

  ghost predicate Unmarked(q: Pattern, s: string) { forall i :: 0 <= i < |s| ==> !IsMark(q, s[i]) }

  lemma MatchesAreMarked(q: Pattern, w: string)
    requires InLanguage(q, w)
    ensures !Unmarked(q, w)
  {
    match q
    case Uuid => assert w[8] == '-';
    case BracketedIp6 => assert w[0] == '[';
    case Ip4 => assert w[DigitRun(w)] == '.';
    case Hex => assert IsMark(Hex, w[1]);
    case Number => assert IsDigit(w[0]);
  }

  lemma {:induction false} UnmarkedIsFree(q: Pattern, afterWord: bool, s: string)
    requires Unmarked(q, s)
    ensures Free(Finder(q), afterWord, s)
    decreases |s|
  {
    if s == [] {
    } else {
      var n := Finder(q)(afterWord, s);
      if n > 0 {
        MatchesAreMarked(q, s[..n]);
        assert false;
      }
      UnmarkedIsFree(q, IsWord(s[0]), s[1..]);
    }
  }

  /** The position of a pattern's pass in the normaliser. */
  function Pass(q: Pattern): nat {
    match q
    case Uuid => 0
    case BracketedIp6 => 1
    case Ip4 => 2
    case Hex => 3
    case Number => 4
  }

  /** Earlier passes find nothing in a value... */
  lemma EarlierPassesKeep(p: Pattern, q: Pattern, w: string)
    requires InLanguage(q, w) && Pass(p) < Pass(q)
    ensures Replace(p, w) == w
  {
    if q == Ip4 {
      GroupsShape(w, 4);
    }
    assert Unmarked(p, w);
    UnmarkedIsFree(p, false, w);
    FreeUnchanged(Finder(p), Token(p), false, w);
  }

  /** ... its own takes all of it... */
  lemma OwnPassMasks(q: Pattern, w: string)
    requires InLanguage(q, w)
    ensures Replace(q, w) == Token(q)
  {
    LanguageShape(q, w);
    assert w[..|w|] == w;
    assert Matches(q, false, w, |w|);
    UniqueMatch(q, false, w, |w|, Finder(q)(false, w));
    WholeMatch(Finder(q), Token(q), false, w);
  }

  /** ... and later ones find nothing in the token. */
  lemma LaterPassesKeep(p: Pattern, q: Pattern)
    ensures Replace(p, Token(q)) == Token(q)
  {
    TokensInert(p, q);
    TokenStaysFree(Finder(p), Token(q), 0, false, []);
    assert Token(q)[0..] + [] == Token(q);
    FreeUnchanged(Finder(p), Token(q), false, Token(q));
    FreeUnchanged(Finder(p), Token(p), false, Token(q));
  }

  lemma OnePass(p: Pattern, q: Pattern, w: string)
    requires InLanguage(q, w)
    ensures Pass(p) < Pass(q) ==> Replace(p, w) == w
    ensures p == q ==> Replace(p, w) == Token(q)
    ensures Replace(p, Token(q)) == Token(q)
  {
    if Pass(p) < Pass(q) {
      EarlierPassesKeep(p, q, w);
    }
    if p == q {
      OwnPassMasks(q, w);
    }
    LaterPassesKeep(p, q);
  }

  /** A volatile value that stands alone becomes the token of its kind. */
  lemma ValueIsMasked(q: Pattern, w: string)
    requires InLanguage(q, w)
    ensures ReplacePatterns(w) == Token(q)
  {
    OnePass(Uuid, q, w);
    OnePass(BracketedIp6, q, w);
    OnePass(Ip4, q, w);
    OnePass(Hex, q, w);
    OnePass(Number, q, w);
  }

  // ----- lines that differ in volatile values only

  lemma LowerKeepsLanguage(q: Pattern, w: string)
    requires InLanguage(q, w)
    ensures InLanguage(q, ToLower(w))
  {
    if q == Ip4 {
      GroupsShape(w, 4);
      assert ToLower(w) == w;
    }
  }

  lemma LowerJoins(a: string, b: string)
    ensures ToLower(a + b) == ToLower(a) + ToLower(b)
  {
  }

  lemma LowerAround(a: string, w: string, b: string)
    requires Around(a, b)
    ensures ToLower(a + (w + b)) == ToLower(a) + (ToLower(w) + ToLower(b))
    ensures Around(ToLower(a), ToLower(b))
  {
  }

  /** The text the later passes work on: lower case, with timestamps replaced. */
  function Prepared(s: string): string { ReplaceTimestamps(ToLower(s)) }

  lemma PreparedAround(a: string, w: string, b: string)
    requires Around(a, b) && IsPlainWord(ToLower(w))
    ensures Prepared(a + (w + b)) == Prepared(a) + (ToLower(w) + Prepared(b))
    ensures Around(Prepared(a), Prepared(b))
  {
    LowerAround(a, w, b);
    TimestampsAround(ToLower(a), ToLower(w), ToLower(b));
    if a != [] {
      FieldsKeepEnds(TimestampFinder(), "<timestamp>", ToLower(a));
    }
    if b != [] {
      FieldsKeepEnds(TimestampFinder(), "<timestamp>", ToLower(b));
    }
  }

  /** What becomes of a word. */
  function Masked(w: string): string { ReplacePatterns(ToLower(w)) }

  /** A word of the line is masked by itself, whatever the text around it, and has no part in what becomes of that. */
  lemma MaskedLine(a: string, w: string, b: string)
    requires Around(a, b) && IsPlainWord(ToLower(w))
    ensures ReplacePatterns(Prepared(a + (w + b)))
            == ReplacePatterns(Prepared(a)) + (Masked(w) + ReplacePatterns(Prepared(b)))
  {
    PreparedAround(a, w, b);
    PatternsSeparate();
    RewrittenAround(ReplacePatterns, Prepared(a), ToLower(w), Prepared(b));
  }

  lemma ValueBecomesToken(q: Pattern, w: string)
    requires InLanguage(q, w)
    ensures IsPlainWord(ToLower(w)) && Masked(w) == Token(q)
  {
    LowerKeepsLanguage(q, w);
    ValuesAreNoFieldPieces(q, ToLower(w));
    ValueIsMasked(q, ToLower(w));
  }

  /** Any two lines that differ in one volatile value of the same kind between separators have one normal form. */
  lemma VolatileValuesLookAlike(a: string, q: Pattern, v: string, w: string, b: string)
    requires Around(a, b) && InLanguage(q, v) && InLanguage(q, w)
    ensures Normalize(a + (v + b)) == Normalize(a + (w + b))
  {
    ValueBecomesToken(q, v);
    ValueBecomesToken(q, w);
    MaskedLine(a, v, b);
    MaskedLine(a, w, b);
  }

  /** The text before a timestamp does not end in a digit or a zone letter. */
  predicate EndsOutsideTimestamp(a: string) { EndsOutside(ToLower(a)) }

  lemma LowerParts(a: string, name: string, t: string, b: string)
    ensures ToLower(a + (name + (t + ("\"" + b))))
            == ToLower(a) + (ToLower(name) + (ToLower(t) + ("\"" + ToLower(b))))
  {
  }
}
