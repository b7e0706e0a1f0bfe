/**
 Network endpoints in the words of a line (alert_dedup.go): an address, a colon and a port, and what punctuation
 follows, is masked part by part, so lines that differ in an endpoint look alike unless one of the ports is short.
 */
module AlertEndpoints {
  import opened TextRewrite
  import opened AlertText
  import opened AlertTimestamps
  import opened AlertWords
  import opened AlertLines

  predicate IsHost(q: Pattern, h: string) { (q == Ip4 || q == BracketedIp6) && InLanguage(q, h) }

  predicate IsPort(p: string) { p != [] && AllDigits(p) }

  /** Punctuation that belongs to the word: a dash, dots and colons. */
  predicate IsTail(t: string) { forall i :: 0 <= i < |t| ==> t[i] == '-' || t[i] == '.' || t[i] == ':' }

  function Rest(p: string, t: string): string { ":" + (p + t) }

  /** Long ports are masked, short ones kept. */
  function MaskedPort(p: string): string { if |p| >= 4 then "<n>" else p }

  // ----- no address or identifier spans punctuation

  /** Behind this mark no group of digits follows. */
  predicate EndsAt(mark: char, u: string) {
    forall i, j :: 0 <= i < j < |u| && u[i] == mark ==> !IsHexDigit(u[j])
  }

  lemma SecondGroup(w: string)
    requires DottedGroups(w, 4)
    ensures var d := DigitRun(w); d + 1 < |w| && w[d] == '.' && IsDigit(w[d + 1])
  {
    var d := DigitRun(w);
    GroupsShape(w[d + 1..], 3);
  }

  lemma NoGroupBehind(q: Pattern, mark: char, s: string, n: nat)
    requires EndsAt(mark, s) && n <= |s| && ((q == Uuid && mark == '-') || (q == Ip4 && mark == '.'))
    ensures !InLanguage(q, s[..n])
  {
    var w := s[..n];
    assert forall i :: 0 <= i < n ==> w[i] == s[i];
    if q == Uuid && n == 36 {
      assert w[8] == '-' ==> !IsHexDigit(w[9]);
    } else if q == Ip4 && InLanguage(q, w) {
      SecondGroup(w);
    }
  }

  lemma {:induction false} PunctuatedIsFree(q: Pattern, mark: char, afterWord: bool, s: string)
    requires EndsAt(mark, s) && ((q == Uuid && mark == '-') || (q == Ip4 && mark == '.'))
    ensures Free(Finder(q), afterWord, s)
    decreases |s|
  {
    if s == [] {
    } else {
      NoGroupBehind(q, mark, s, Finder(q)(afterWord, s));
      assert forall i :: 0 <= i < |s| - 1 ==> s[1..][i] == s[i + 1];
      PunctuatedIsFree(q, mark, IsWord(s[0]), s[1..]);
    }
  }

  // ----- what the passes make of colon, port and punctuation

  lemma RestEnds(p: string, t: string)
    requires IsPort(p) && IsTail(t)
    ensures EndsAt('-', Rest(p, t)) && EndsAt('.', Rest(p, t))
    ensures forall i :: 0 <= i < |Rest(p, t)| ==> !IsSeparator(Rest(p, t)[i]) && !IsUpper(Rest(p, t)[i])
    ensures Unmarked(BracketedIp6, Rest(p, t)) && Unmarked(Hex, Rest(p, t))
  {
    var r := Rest(p, t);
    assert r[0] == ':';
    assert forall i :: 0 <= i < |p| ==> r[1 + i] == p[i];
    assert forall i :: 1 + |p| <= i < |r| ==> r[i] == t[i - 1 - |p|];
  }

  lemma RestIsFree(q: Pattern, afterWord: bool, p: string, t: string)
    requires IsPort(p) && IsTail(t) && q != Number
    ensures Free(Finder(q), afterWord, Rest(p, t)) && Replace(q, Rest(p, t)) == Rest(p, t)
  {
    RestEnds(p, t);
    var r := Rest(p, t);
    if q == Uuid || q == Ip4 {
      PunctuatedIsFree(q, if q == Uuid then '-' else '.', afterWord, r);
      PunctuatedIsFree(q, if q == Uuid then '-' else '.', false, r);
    } else {
      UnmarkedIsFree(q, afterWord, r);
      UnmarkedIsFree(q, false, r);
    }
    FreeUnchanged(Finder(q), Token(q), false, r);
  }

  lemma LongPort(p: string, t: string)
    requires IsPort(p) && IsTail(t) && |p| >= 4
    ensures Replace(Number, p + t) == "<n>" + t
  {
    var s := p + t;
    assert s[..|p|] == p && s[|p|..] == t && s[0] == p[0] && s[|p| - 1] == p[|p| - 1];
    assert Matches(Number, false, s, |p|);
    UniqueMatch(Number, false, s, |p|, Finder(Number)(false, s));
    OneStep(Finder(Number), "<n>", false, s, |p|, "<n>");
    UnmarkedIsFree(Number, IsWord(s[|p| - 1]), t);
    FreeUnchanged(Finder(Number), "<n>", IsWord(s[|p| - 1]), t);
  }

  lemma ShortRunIsNoMatch(afterWord: bool, s: string, k: nat, n: nat)
    requires k < 4 && k <= |s| && (k < |s| ==> !IsDigit(s[k]))
    ensures !Matches(Number, afterWord, s, n)
  {
    if 4 <= n <= |s| {
      assert s[..n][k] == s[k];
    }
  }

  lemma {:induction false} ShortPortIsFree(afterWord: bool, p: string, t: string)
    requires AllDigits(p) && IsTail(t) && |p| < 4
    ensures Free(Finder(Number), afterWord, p + t)
    decreases |p|
  {
    var s := p + t;
    if p == [] {
      assert s == t;
      UnmarkedIsFree(Number, afterWord, t);
    } else {
      assert |p| < |s| ==> s[|p|] == t[0];
      ShortRunIsNoMatch(afterWord, s, |p|, Finder(Number)(afterWord, s));
      assert s[0] == p[0] && s[1..] == p[1..] + t;
      ShortPortIsFree(IsWord(s[0]), p[1..], t);
    }
  }

  lemma NumberPass(p: string, t: string)
    requires IsPort(p) && IsTail(t)
    ensures Replace(Number, Rest(p, t)) == ":" + (MaskedPort(p) + t)
  {
    var s := Rest(p, t);
    assert s[0] == ':' && s[1..] == p + t;
    if Finder(Number)(false, s) > 0 {
      MatchShape(Number, false, s, Finder(Number)(false, s));
    }
    OneStep(Finder(Number), "<n>", false, s, 1, ":");
    if |p| >= 4 {
      LongPort(p, t);
    } else {
      ShortPortIsFree(false, p, t);
      FreeUnchanged(Finder(Number), "<n>", false, p + t);
    }
  }

  // ----- the address before it

  function Replacer(p: Pattern): string -> string { s => Replace(p, s) }

  lemma ReplacerSeparates(p: Pattern)
    ensures Separates(Replacer(p))
  {
    forall a, u ensures Splits(Replacer(p), a, u) {
      if StartsApart(u) {
        ReplaceSplits(p, a, u);
      }
    }
    forall c, u ensures Keeps(Replacer(p), c, u) {
      if IsSeparator(c) {
        ReplaceKeepsSeparator(p, c, u);
      }
    }
  }

  lemma FixedThenRest(f: string -> string, token: string, rest: string)
    requires Separates(f) && token != [] && IsSeparator(token[|token| - 1]) && f(token) == token
    ensures f(token + rest) == token + f(rest)
  {
    RewrittenAround(f, token, rest, []);
    assert token + (rest + []) == token + rest && f(rest) + [] == f(rest);
  }

  lemma TokenEnds(q: Pattern)
    ensures Token(q) != [] && IsSeparator(Token(q)[|Token(q)| - 1])
  {
  }

  /** A pass deals with what follows a token as if the token were not there. */
  lemma TokenThenRest(p: Pattern, q: Pattern, rest: string)
    ensures Replace(p, Token(q) + rest) == Token(q) + Replace(p, rest)
  {
    LaterPassesKeep(p, q);
    ReplacerSeparates(p);
    TokenEnds(q);
    FixedThenRest(Replacer(p), Token(q), rest);
  }

  lemma HostThenRest(q: Pattern, h: string, p: string, t: string)
    requires IsHost(q, h) && IsPort(p) && IsTail(t)
    ensures Replace(q, h + Rest(p, t)) == Token(q) + Rest(p, t)
  {
    var r := Rest(p, t);
    var s := h + r;
    LanguageShape(q, h);
    assert s[..|h|] == h && s[|h|..] == r && s[0] == h[0] && s[|h| - 1] == h[|h| - 1] && s[|h|] == ':';
    assert Matches(q, false, s, |h|);
    UniqueMatch(q, false, s, |h|, Finder(q)(false, s));
    OneStep(Finder(q), Token(q), false, s, |h|, Token(q));
    RestIsFree(q, IsWord(s[|h| - 1]), p, t);
    FreeUnchanged(Finder(q), Token(q), IsWord(s[|h| - 1]), r);
  }

  lemma HostShape(q: Pattern, h: string)
    requires IsHost(q, h)
    ensures h != [] && NoSeparator(h) && forall i :: 0 <= i < |h| ==> h[i] != '-'
    ensures q == Ip4 ==> forall i :: 0 <= i < |h| ==> h[i] != '['
    ensures q == BracketedIp6 ==> h[0] == '['
  {
    LanguageShape(q, h);
    if q == Ip4 {
      GroupsShape(h, 4);
    }
  }

  /** Before its own pass an endpoint is left alone. */
  lemma EarlierPassesKeepEndpoint(e: Pattern, q: Pattern, h: string, p: string, t: string)
    requires IsHost(q, h) && IsPort(p) && IsTail(t) && Pass(e) < Pass(q)
    ensures Replace(e, h + Rest(p, t)) == h + Rest(p, t)
  {
    var r := Rest(p, t);
    var s := h + r;
    HostShape(q, h);
    RestEnds(p, t);
    assert forall i :: 0 <= i < |h| ==> s[i] == h[i];
    assert forall i :: |h| <= i < |s| ==> s[i] == r[i - |h|];
    if e == Uuid {
      PunctuatedIsFree(Uuid, '-', false, s);
    } else {
      UnmarkedIsFree(e, false, s);
    }
    FreeUnchanged(Finder(e), Token(e), false, s);
  }

  lemma EndpointPasses(q: Pattern, h: string, p: string, t: string)
    requires IsHost(q, h) && IsPort(p) && IsTail(t)
    ensures ReplacePatterns(h + Rest(p, t)) == Token(q) + (":" + (MaskedPort(p) + t))
  {
    var r := Rest(p, t);
    EarlierPassesKeepEndpoint(Uuid, q, h, p, t);
    HostThenRest(q, h, p, t);
    if q == Ip4 {
      EarlierPassesKeepEndpoint(BracketedIp6, q, h, p, t);
    } else {
      TokenThenRest(Ip4, q, r);
      RestIsFree(Ip4, false, p, t);
    }
    TokenThenRest(Hex, q, r);
    RestIsFree(Hex, false, p, t);
    TokenThenRest(Number, q, r);
    NumberPass(p, t);
  }

  lemma {:induction false} GroupsAreLong(w: string, n: nat)
    requires DottedGroups(w, n)
    ensures |w| >= 2 * n - 1
    decreases n
  {
    if n <= 1 {
    } else {
      GroupsAreLong(w[DigitRun(w) + 1..], n - 1);
    }
  }

  lemma EndpointIsPlain(q: Pattern, h: string, p: string, t: string)
    requires IsHost(q, h) && IsPort(p) && IsTail(t)
    ensures IsPlainWord(h + Rest(p, t))
  {
    var r := Rest(p, t);
    var w := h + r;
    HostShape(q, h);
    RestEnds(p, t);
    assert forall i :: 0 <= i < |h| ==> w[i] == h[i];
    assert forall i :: |h| <= i < |w| ==> w[i] == r[i - |h|];
    if q == Ip4 {
      GroupsAreLong(h, 4);
      GroupsShape(h, 4);
    }
    ValueHead(q, h);
    if IsFieldPiece(w) {
      PieceHead(w);
    }
  }

  lemma LowerEndpoint(q: Pattern, h: string, p: string, t: string)
    requires IsHost(q, h) && IsPort(p) && IsTail(t)
    ensures ToLower(h + Rest(p, t)) == ToLower(h) + Rest(p, t) && IsHost(q, ToLower(h))
  {
    LowerKeepsLanguage(q, h);
    RestEnds(p, t);
    LowerJoins(h, Rest(p, t));
    assert ToLower(Rest(p, t)) == Rest(p, t);
  }

  /** The address becomes the token of its kind, the port is masked if it is long, and the punctuation stays. */
  lemma EndpointIsMasked(q: Pattern, h: string, p: string, t: string)
    requires IsHost(q, h) && IsPort(p) && IsTail(t)
    ensures IsPlainWord(ToLower(h + Rest(p, t)))
    ensures Masked(h + Rest(p, t)) == Token(q) + (":" + (MaskedPort(p) + t))
  {
    LowerEndpoint(q, h, p, t);
    EndpointIsPlain(q, ToLower(h), p, t);
    EndpointPasses(q, ToLower(h), p, t);
  }

  lemma PortsAlike(p: string, r: string)
    requires IsPort(p) && IsPort(r)
    ensures MaskedPort(p) == MaskedPort(r) <==> p == r || (|p| >= 4 && |r| >= 4)
  {
    assert "<n>"[0] == '<' && !IsDigit('<');
  }

  lemma SameAround(token: string, x: string, y: string, t: string)
    ensures token + (":" + (x + t)) == token + (":" + (y + t)) <==> x == y
  {
    Prepend(token, ":", x + t);
    Prepend(token, ":", y + t);
    if token + (":" + (x + t)) == token + (":" + (y + t)) {
      Cancel(token + ":", x, y, t);
    }
  }

  lemma EndpointsMaskedAlike(q: Pattern, g: string, p: string, h: string, r: string, t: string)
    requires IsHost(q, g) && IsHost(q, h) && IsPort(p) && IsPort(r) && IsTail(t)
    ensures IsPlainWord(ToLower(g + Rest(p, t))) && IsPlainWord(ToLower(h + Rest(r, t)))
    ensures Masked(g + Rest(p, t)) == Masked(h + Rest(r, t)) <==> p == r || (|p| >= 4 && |r| >= 4)
  {
    EndpointIsMasked(q, g, p, t);
    EndpointIsMasked(q, h, r, t);
    SameAround(Token(q), MaskedPort(p), MaskedPort(r), t);
    PortsAlike(p, r);
  }

  /**
   Lines that differ in an endpoint, with an address of the same kind, have one normal form if and only if the ports are
   equal or both have at least four digits.
   */
  lemma EndpointsLookAlike(
    a: string, q: Pattern, g: string, p: string, h: string, r: string, t: string, b: string)
    requires Around(a, b) && IsHost(q, g) && IsHost(q, h) && IsPort(p) && IsPort(r) && IsTail(t)
    ensures Normalize(a + ((g + Rest(p, t)) + b)) == Normalize(a + ((h + Rest(r, t)) + b))
            <==> p == r || (|p| >= 4 && |r| >= 4)
  {
    EndpointsMaskedAlike(q, g, p, h, r, t);
    LinesLookAlikeExactly(a, g + Rest(p, t), h + Rest(r, t), b);
  }
}
