/** The text normaliser behind alert fingerprints (alert_dedup.go). */
module AlertText {

  import opened TextRewrite

  // ----- character classes

  predicate IsHexDigit(c: char) { IsDigit(c) || 'a' <= c <= 'f' || 'A' <= c <= 'F' }

  /** What TrimSpace removes, which includes the vertical tab that `\s` leaves out. */
  predicate IsTrimmed(c: char) { IsSpace(c) || c == '\U{0B}' }

  predicate AllDigits(s: string) { forall i :: 0 <= i < |s| ==> IsDigit(s[i]) }

  /** How many digits `s` starts with. */
  function DigitRun(s: string): (n: nat)
    ensures n <= |s| && AllDigits(s[..n])
    ensures n < |s| ==> !IsDigit(s[n])
  {
    if s == [] || !IsDigit(s[0]) then 0 else 1 + DigitRun(s[1..])
  }

  // ----- the five replaced patterns

  datatype Pattern = Uuid | BracketedIp6 | Ip4 | Hex | Number

  /** `n` groups of one to three digits, separated by dots. */
  predicate DottedGroups(w: string, n: nat)
    decreases n
  {
    var d := DigitRun(w);
    && 1 <= d <= 3
    && if n <= 1 then n == 1 && d == |w|
       else d < |w| && w[d] == '.' && DottedGroups(w[d + 1..], n - 1)
  }

  /** The texts a pattern matches, word boundaries aside. */
  predicate InLanguage(q: Pattern, w: string) {
    match q
    case Uuid =>
      |w| == 36
      && (forall i :: 0 <= i < 36 ==> if i == 8 || i == 13 || i == 18 || i == 23 then w[i] == '-' else IsHexDigit(w[i]))
      && '1' <= w[14] <= '5'
      && (w[19] == '8' || w[19] == '9' || w[19] == 'a' || w[19] == 'b' || w[19] == 'A' || w[19] == 'B')
    case BracketedIp6 =>
      |w| >= 3 && w[0] == '[' && w[|w| - 1] == ']'
      && forall i :: 0 < i < |w| - 1 ==> IsHexDigit(w[i]) || w[i] == ':'
    case Ip4 => DottedGroups(w, 4)
    case Hex =>
      |w| >= 3 && w[0] == '0' && (w[1] == 'x' || w[1] == 'X') && forall i :: 2 <= i < |w| ==> IsHexDigit(w[i])
    case Number => |w| >= 4 && AllDigits(w)
  }

  /** `q` matches the first `n` characters of `s`, where `afterWord` says whether a word character precedes `s`. */
  predicate Matches(q: Pattern, afterWord: bool, s: string, n: nat) {
    && 1 <= n <= |s|
    && InLanguage(q, s[..n])
    && (q != BracketedIp6 ==> afterWord != IsWord(s[0]) && IsWord(s[n - 1]) != WordAt(s, n))
  }

  function MatchFrom(q: Pattern, afterWord: bool, s: string, least: nat): (n: nat)
    ensures n > 0 ==> Matches(q, afterWord, s, n)
    ensures n == 0 ==> forall k :: least <= k ==> !Matches(q, afterWord, s, k)
    decreases |s| + 1 - least
  {
    if least > |s| then 0
    else if Matches(q, afterWord, s, least) then least
    else MatchFrom(q, afterWord, s, least + 1)
  }

  function SpaceRun(s: string): (n: nat)
    ensures n <= |s|
    ensures forall i :: 0 <= i < n ==> IsSpace(s[i])
    ensures n < |s| ==> !IsSpace(s[n])
  {
    if s == [] || !IsSpace(s[0]) then 0 else 1 + SpaceRun(s[1..])
  }

  // ----- replacement passes

  function Finder(q: Pattern): Matcher { (afterWord, s) => MatchFrom(q, afterWord, s, 1) }

  function Blanks(): Matcher { (afterWord, s) => SpaceRun(s) }

  function Token(q: Pattern): string {
    match q
    case Uuid => "<uuid>"
    case BracketedIp6 => "<ip6>"
    case Ip4 => "<ip>"
    case Hex => "<hex>"
    case Number => "<n>"
  }

  function Replace(q: Pattern, s: string): string {
    ReplaceAll(Finder(q), Token(q), false, s)
  }

  function CollapseSpace(s: string): string {
    ReplaceAll(Blanks(), " ", false, s)
  }

  function ToLower(s: string): (r: string)
    ensures |r| == |s|
  {
    seq(|s|, i requires 0 <= i < |s| => if IsUpper(s[i]) then (s[i] as int + 32) as char else s[i])
  }

  function TrimLeft(s: string): string {
    if s != [] && IsTrimmed(s[0]) then TrimLeft(s[1..]) else s
  }

  function TrimRight(s: string): string {
    if s != [] && IsTrimmed(s[|s| - 1]) then TrimRight(s[..|s| - 1]) else s
  }

  // ----- structured timestamp fields

  function KeyLength(s: string): (n: nat)
    ensures n <= |s|
  {
    if "\"time\"" <= s then 6 else if "\"timestamp\"" <= s then 11 else if "\"ts\"" <= s then 4 else 0
  }

  /** Length of an optional fraction of a second. */
  function FractionLength(s: string): (n: nat)
    ensures n <= |s|
  {
    if s != [] && s[0] == '.' && DigitRun(s[1..]) > 0 then 1 + DigitRun(s[1..]) else 0
  }

  function ZoneLength(s: string): (n: nat)
    ensures n <= |s|
  {
    if |s| >= 1 && s[0] == 'z' then 1
    else if |s| >= 6 && (s[0] == '+' || s[0] == '-') && AllDigits(s[1..3]) && s[3] == ':' && AllDigits(s[4..6]) then 6
    else 0
  }

  predicate IsDateTime(s: string) {
    && |s| == 19
    && (forall i :: 0 <= i < 19 ==> i == 4 || i == 7 || i == 10 || i == 13 || i == 16 || IsDigit(s[i]))
    && s[4] == '-' && s[7] == '-' && s[10] == 't' && s[13] == ':' && s[16] == ':'
  }

  /** Length of a timestamp that a quote closes, or 0. */
  function TimestampLength(s: string): (n: nat)
    ensures n > 0 ==> n < |s| && s[n] == '"' && n >= 5 && AllDigits(s[..4]) && s[4] == '-'
  {
    if |s| < 19 || !IsDateTime(s[..19]) then 0
    else
      var f := 19 + FractionLength(s[19..]);
      var z := ZoneLength(s[f..]);
      if z > 0 && f + z < |s| && s[f + z] == '"' then f + z else 0
  }

  /** The position behind a `c` that comes at `from` or after blanks there, or 0. */
  function PastMark(s: string, from: nat, c: char): (n: nat)
    requires from <= |s|
    ensures n > 0 ==> from < n <= |s| && s[n - 1] == c
  {
    var i := from + SpaceRun(s[from..]);
    if i == |s| || s[i] != c then 0 else i + 1
  }

  /** Where the value of a timestamp field that starts here begins, just after its opening quote, or 0. */
  function ValueStart(s: string): (n: nat)
    ensures n > 0 ==> n <= |s| && s[n - 1] == '"'
  {
    var k := KeyLength(s);
    var v := if k == 0 then 0 else PastMark(s, k, ':');
    if v == 0 then 0 else PastMark(s, v, '"')
  }

  /** Where the value of a timestamp field at the head of `s` begins, and its length, or 0 if there is none. */
  function TimestampField(s: string): (r: (nat, nat))
    ensures r.1 > 0 ==> r.0 > 0 && r.0 + r.1 < |s|
  {
    var v := ValueStart(s);
    (v, if v > 0 then TimestampLength(s[v..]) else 0)
  }

  function TimestampFinder(): FieldFinder { s => TimestampField(s) }

  function ReplaceTimestamps(s: string): string {
    ReplaceFields(TimestampFinder(), "<timestamp>", s)
  }

  // ----- the normaliser

  /** The five pattern replacements, in the order the code makes them. */
  function ReplacePatterns(t: string): string {
    Replace(Number, Replace(Hex, Replace(Ip4, Replace(BracketedIp6, Replace(Uuid, t)))))
  }

  function Normalize(text: string): string {
    TrimRight(TrimLeft(CollapseSpace(ReplacePatterns(ReplaceTimestamps(ToLower(text))))))
  }

  /** Every `\s` character is a blank, and no two are adjacent. */
  predicate SingleBlanks(s: string) {
    && (forall i :: 0 <= i < |s| && IsSpace(s[i]) ==> s[i] == ' ')
    && (forall i :: 0 < i < |s| && IsSpace(s[i]) ==> !IsSpace(s[i - 1]))
  }

  predicate Trimmed(s: string) {
    s == [] || (!IsTrimmed(s[0]) && !IsTrimmed(s[|s| - 1]))
  }

  /** The normal form: what no pass changes. */
  ghost predicate NormalForm(s: string) {
    && LowerCase(s) && SingleBlanks(s) && Trimmed(s)
    && forall q :: Free(Finder(q), false, s)
  }

  // ----- the patterns obey the laws of replacement

  lemma DigitsOfRun(w: string, i: nat)
    requires i < DigitRun(w)
    ensures IsDigit(w[i])
  {
    assert w[..DigitRun(w)][i] == w[i];
  }

  predicate IsDotted(w: string) { forall i :: 0 <= i < |w| ==> IsDigit(w[i]) || w[i] == '.' }

  lemma {:induction false} GroupsShape(w: string, n: nat)
    requires DottedGroups(w, n)
    ensures w != [] && IsDigit(w[0]) && IsDigit(w[|w| - 1]) && IsDotted(w)
    decreases n
  {
    var d := DigitRun(w);
    forall i | 0 <= i < d ensures IsDigit(w[i]) { DigitsOfRun(w, i); }
    if n > 1 {
      var rest := w[d + 1..];
      GroupsShape(rest, n - 1);
      forall i | d < i < |w| ensures IsDigit(w[i]) || w[i] == '.' {
        assert w[i] == rest[i - d - 1];
      }
      assert w[|w| - 1] == rest[|rest| - 1];
    }
  }

  lemma LanguageShape(q: Pattern, w: string)
    requires InLanguage(q, w)
    ensures w != [] && NoSeparator(w)
    ensures if q == BracketedIp6 then w[0] == '[' && w[|w| - 1] == ']' else IsWord(w[0]) && IsWord(w[|w| - 1])
  {
    if q == Ip4 {
      GroupsShape(w, 4);
    }
  }

  lemma {:induction false} DigitRunOfPrefix(s: string, a: nat)
    requires a <= |s|
    ensures DigitRun(s[..a]) == if DigitRun(s) <= a then DigitRun(s) else a
  {
    if a > 0 {
      assert s[..a][1..] == s[1..][..a - 1];
      DigitRunOfPrefix(s[1..], a - 1);
    }
  }

  /** Four groups that are a proper prefix of four groups end inside a run of digits. */
  lemma {:induction false} GroupsEnd(s: string, n: nat, a: nat, b: nat)
    requires a < b <= |s|
    ensures DottedGroups(s[..a], n) && DottedGroups(s[..b], n) ==> IsDigit(s[a])
    decreases n
  {
    var d := DigitRun(s);
    DigitRunOfPrefix(s, a);
    DigitRunOfPrefix(s, b);
    if n > 1 && d < a {
      assert s[d + 1..][..a - d - 1] == s[..a][d + 1..];
      assert s[d + 1..][..b - d - 1] == s[..b][d + 1..];
      GroupsEnd(s[d + 1..], n - 1, a - d - 1, b - d - 1);
    }
    assert forall i :: 0 <= i < d ==> s[..d][i] == s[i];
  }

  lemma MatchShape(q: Pattern, afterWord: bool, s: string, n: nat)
    requires Matches(q, afterWord, s, n)
    ensures NoSeparator(s[..n]) && forall i :: 0 <= i < n ==> !IsSeparator(s[i])
    ensures if q == BracketedIp6 then s[0] == '[' && s[n - 1] == ']'
            else IsWord(s[0]) && IsWord(s[n - 1]) && !afterWord && !WordAt(s, n)
  {
    LanguageShape(q, s[..n]);
    assert forall i :: 0 <= i < n ==> s[..n][i] == s[i];
  }

  lemma NoLongerMatch(q: Pattern, afterWord: bool, s: string, a: nat, b: nat)
    requires Matches(q, afterWord, s, a) && a < b <= |s|
    ensures !InLanguage(q, s[..b])
  {
    MatchShape(q, afterWord, s, a);
    var u, v := s[..a], s[..b];
    assert v[a] == s[a] && v[a - 1] == s[a - 1] == u[a - 1];
    if q == Ip4 {
      GroupsEnd(s, 4, a, b);
    }
  }

  /** A pattern has at most one match at a position, so greediness and leftmost-first choice never matter. */
  lemma UniqueMatch(q: Pattern, afterWord: bool, s: string, a: nat, b: nat)
    requires Matches(q, afterWord, s, a) && Matches(q, afterWord, s, b)
    ensures a == b
  {
    if a < b {
      NoLongerMatch(q, afterWord, s, a, b);
    } else if b < a {
      NoLongerMatch(q, afterWord, s, b, a);
    }
  }

  lemma FinderLaws(q: Pattern)
    ensures Lawful(Finder(q)) && Local(Finder(q))
  {
    var m := Finder(q);
    forall afterWord, s ensures CleanEdges(m, afterWord, s) && Contained(m, afterWord, s) {
      var n := m(afterWord, s);
      if n > 0 {
        MatchShape(q, afterWord, s, n);
        if !WordAt(s, 0) {
          assert Matches(q, true, s, n);
        }
      }
    }
    forall afterWord, s, t ensures Transfers(m, afterWord, s, t) {
      var n := m(afterWord, t);
      if 0 < n <= |s| && n <= |t| && s[..n] == t[..n] && (IsWord(s[n - 1]) ==> WordAt(s, n) == WordAt(t, n)) {
        MatchShape(q, afterWord, t, n);
        assert s[0] == s[..n][0] && s[n - 1] == s[..n][n - 1];
        assert t[0] == t[..n][0] && t[n - 1] == t[..n][n - 1];
        assert Matches(q, afterWord, s, n);
      }
    }
  }

  lemma BlanksLawful()
    ensures Lawful(Blanks())
  {
    forall afterWord, s ensures CleanEdges(Blanks(), afterWord, s) {
    }
  }

  predicate IsToken(token: string) {
    && |token| >= 3 && token[0] == '<' && token[|token| - 1] == '>'
    && forall i :: 0 < i < |token| - 1 ==> IsWord(token[i])
  }

  /** A match that starts inside a token could only be the whole word between its brackets. */
  lemma MatchInToken(q: Pattern, token: string, j: nat, afterWord: bool, rest: string, n: nat)
    requires IsToken(token) && j < |token| && (j > 0 ==> afterWord == IsWord(token[j - 1]))
    requires Matches(q, afterWord, token[j..] + rest, n)
    ensures InLanguage(q, token[1..|token| - 1])
  {
    var s := token[j..] + rest;
    MatchShape(q, afterWord, s, n);
    assert s[0] == token[j] && s[|token| - j - 1] == '>';
    assert s[n - 1] == token[j + n - 1] && s[n] == token[j + n];
    assert s[..n] == token[1..|token| - 1];
  }

  lemma NotAMatch(q: Pattern, p: Pattern)
    ensures !InLanguage(q, Token(p)[1..|Token(p)| - 1])
  {
    var w := Token(p)[1..|Token(p)| - 1];
    assert w[0] == Token(p)[1] && !IsDigit(w[0]) && w[0] != '[' && |w| < 36;
  }

  lemma TokensInert(q: Pattern, p: Pattern)
    ensures Inert(Token(p), Finder(q))
  {
    var token, m := Token(p), Finder(q);
    assert IsToken(token);
    assert !InLanguage(q, token[1..|token| - 1]) by { NotAMatch(q, p); }
    forall j, afterWord, rest | 0 <= j < |token| && (j > 0 ==> afterWord == IsWord(token[j - 1]))
      ensures m(afterWord, token[j..] + rest) == 0
    {
      if m(afterWord, token[j..] + rest) > 0 {
        MatchInToken(q, token, j, afterWord, rest, m(afterWord, token[j..] + rest));
      }
    }
  }

  lemma BlankInert(q: Pattern)
    ensures Inert(" ", Finder(q))
  {
    var m := Finder(q);
    forall j, afterWord, rest | 0 <= j < 1 ensures m(afterWord, " "[j..] + rest) == 0 {
      var s := " "[j..] + rest;
      assert s[0] == ' ';
      if m(afterWord, s) > 0 {
        MatchShape(q, afterWord, s, m(afterWord, s));
      }
    }
  }

  lemma ReplaceKeepsFree(q: Pattern, p: Pattern, s: string)
    requires p == q || Free(Finder(q), false, s)
    ensures Free(Finder(q), false, Replace(p, s))
  {
    FinderLaws(q);
    FinderLaws(p);
    TokensInert(q, p);
    PassKeepsFree(Finder(p), Token(p), Finder(q), false, s);
  }

  lemma CollapseKeepsFree(q: Pattern, s: string)
    requires Free(Finder(q), false, s)
    ensures Free(Finder(q), false, CollapseSpace(s))
  {
    FinderLaws(q);
    BlanksLawful();
    BlankInert(q);
    PassKeepsFree(Blanks(), " ", Finder(q), false, s);
  }

  lemma {:induction false} CollapseGivesSingleBlanks(afterWord: bool, s: string)
    ensures var r := ReplaceAll(Blanks(), " ", afterWord, s);
            SingleBlanks(r) && (r != [] && IsSpace(r[0]) ==> s != [] && IsSpace(s[0]))
    decreases |s|
  {
    if s == [] {
    } else {
      var n := SpaceRun(s);
      if n > 0 {
        CollapseGivesSingleBlanks(IsWord(s[n - 1]), s[n..]);
      } else {
        CollapseGivesSingleBlanks(IsWord(s[0]), s[1..]);
      }
    }
  }

  lemma {:induction false} TrimLeftKeeps(s: string)
    requires LowerCase(s) && SingleBlanks(s) && forall q :: Free(Finder(q), false, s)
    ensures var r := TrimLeft(s);
            && LowerCase(r) && SingleBlanks(r) && (forall q :: Free(Finder(q), false, r))
            && (r == [] || !IsTrimmed(r[0]))
  {
    if s != [] && IsTrimmed(s[0]) {
      forall q ensures Free(Finder(q), false, s[1..]) { FreeSuffix(Finder(q), false, s, 1); }
      TrimLeftKeeps(s[1..]);
    }
  }

  lemma {:induction false} TrimRightKeeps(s: string)
    requires LowerCase(s) && SingleBlanks(s) && forall q :: Free(Finder(q), false, s)
    requires s == [] || !IsTrimmed(s[0])
    ensures NormalForm(TrimRight(s))
  {
    if s != [] && IsTrimmed(s[|s| - 1]) {
      forall q ensures Free(Finder(q), false, s[..|s| - 1]) {
        FinderLaws(q);
        FreeInit(Finder(q), false, s);
      }
      TrimRightKeeps(s[..|s| - 1]);
    }
  }

  // ----- nothing changes a normal form

  lemma {:induction false} SingleBlanksUnchanged(afterWord: bool, s: string)
    requires SingleBlanks(s)
    ensures ReplaceAll(Blanks(), " ", afterWord, s) == s
    decreases |s|
  {
    if s == [] {
    } else {
      assert SpaceRun(s) <= 1;
      OneStep(Blanks(), " ", afterWord, s, 1, [s[0]]);
      SingleBlanksUnchanged(IsWord(s[0]), s[1..]);
    }
  }

  lemma NoTimestampHere(afterWord: bool, s: string)
    requires Free(Finder(Number), afterWord, s)
    ensures TimestampField(s).1 == 0
  {
    var v := ValueStart(s);
    if v > 0 {
      var value := s[v..];
      FreeSuffix(Finder(Number), afterWord, s, v);
      if TimestampLength(value) > 0 {
        assert value[..4][0] == value[0] && value[..4][3] == value[3];
        assert Matches(Number, false, value, 4);
      }
    }
  }

  /** A timestamp field holds a four-digit number between a quote and a dash, so number-free text has none. */
  lemma {:induction false} TimestampsUnchanged(afterWord: bool, s: string)
    requires Free(Finder(Number), afterWord, s)
    ensures ReplaceTimestamps(s) == s
    decreases |s|
  {
    if s == [] {
    } else {
      NoTimestampHere(afterWord, s);
      TimestampsUnchanged(IsWord(s[0]), s[1..]);
    }
  }

  lemma ReplaceKeepsLower(q: Pattern, t: string)
    requires LowerCase(t)
    ensures LowerCase(Replace(q, t))
  {
    assert LowerCase(Token(q));
    PassKeepsLower(Finder(q), Token(q), false, t);
  }

  lemma PatternsKeepLower(t: string)
    requires LowerCase(t)
    ensures LowerCase(ReplacePatterns(t))
  {
    ReplaceKeepsLower(Uuid, t);
    ReplaceKeepsLower(BracketedIp6, Replace(Uuid, t));
    ReplaceKeepsLower(Ip4, Replace(BracketedIp6, Replace(Uuid, t)));
    ReplaceKeepsLower(Hex, Replace(Ip4, Replace(BracketedIp6, Replace(Uuid, t))));
    ReplaceKeepsLower(Number, Replace(Hex, Replace(Ip4, Replace(BracketedIp6, Replace(Uuid, t)))));
  }

  /** After the five replacements no pattern matches any more: each keeps what the earlier ones achieved. */
  lemma PatternsFree(t: string, q: Pattern)
    ensures Free(Finder(q), false, ReplacePatterns(t))
  {
    var t1 := Replace(Uuid, t);
    var t2 := Replace(BracketedIp6, t1);
    var t3 := Replace(Ip4, t2);
    var t4 := Replace(Hex, t3);
    if q == Uuid { ReplaceKeepsFree(q, Uuid, t); }
    if q == Uuid || q == BracketedIp6 { ReplaceKeepsFree(q, BracketedIp6, t1); }
    if q == Uuid || q == BracketedIp6 || q == Ip4 { ReplaceKeepsFree(q, Ip4, t2); }
    if q != Number { ReplaceKeepsFree(q, Hex, t3); }
    ReplaceKeepsFree(q, Number, t4);
  }

  lemma TrimGivesNormalForm(t: string)
    requires LowerCase(t) && forall q :: Free(Finder(q), false, t)
    ensures NormalForm(TrimRight(TrimLeft(CollapseSpace(t))))
  {
    PassKeepsLower(Blanks(), " ", false, t);
    forall q ensures Free(Finder(q), false, CollapseSpace(t)) { CollapseKeepsFree(q, t); }
    CollapseGivesSingleBlanks(false, t);
    TrimLeftKeeps(CollapseSpace(t));
    TrimRightKeeps(TrimLeft(CollapseSpace(t)));
  }

  lemma LowerFirst(text: string)
    ensures LowerCase(ReplaceTimestamps(ToLower(text)))
  {
    FieldsKeepLower(TimestampFinder(), "<timestamp>", ToLower(text));
  }

  /** The normaliser's output is in normal form: lower case, trimmed, single blanks, no match of any pattern. */
  lemma NormalizeGivesNormalForm(text: string)
    ensures NormalForm(Normalize(text))
  {
    var t := ReplaceTimestamps(ToLower(text));
    LowerFirst(text);
    PatternsKeepLower(t);
    forall q ensures Free(Finder(q), false, ReplacePatterns(t)) { PatternsFree(t, q); }
    TrimGivesNormalForm(ReplacePatterns(t));
  }

  lemma PatternsUnchanged(s: string)
    requires forall q :: Free(Finder(q), false, s)
    ensures ReplacePatterns(s) == s
  {
    forall q ensures Replace(q, s) == s { FreeUnchanged(Finder(q), Token(q), false, s); }
  }

  lemma EndsUnchanged(s: string)
    requires SingleBlanks(s) && Trimmed(s)
    ensures TrimRight(TrimLeft(CollapseSpace(s))) == s
  {
    SingleBlanksUnchanged(false, s);
    assert TrimLeft(s) == s && TrimRight(s) == s;
  }

  lemma NormalFormUnchanged(s: string)
    requires NormalForm(s)
    ensures Normalize(s) == s
  {
    assert ToLower(s) == s;
    assert Free(Finder(Number), false, s);
    TimestampsUnchanged(false, s);
    PatternsUnchanged(s);
    EndsUnchanged(s);
  }

  /** Normalising twice is normalising once, and the texts normalising leaves alone are exactly the normal forms. */
  lemma NormalizeIdempotent(text: string)
    ensures Normalize(Normalize(text)) == Normalize(text)
    ensures Normalize(text) == text <==> NormalForm(text)
  {
    NormalizeGivesNormalForm(text);
    NormalFormUnchanged(Normalize(text));
    if NormalForm(text) {
      NormalFormUnchanged(text);
    }
  }

  // ----- fingerprints

  /** A parsed line is a map from field names to non-empty values; an unparsable line is None. */
  datatype ParsedLine = Unparsed | Parsed(fields: map<string, string>)

  const UNKNOWN := "<unknown>"

  function FieldOr(parsed: ParsedLine, field: string, default: string): string {
    if parsed.Parsed? && field in parsed.fields && parsed.fields[field] != "" then parsed.fields[field] else default
  }

  function JoinKey(host: string, process: string, text: string): string {
    host + "\0" + process + "\0" + text
  }

  /** The text that is hashed into a fingerprint. */
  function FingerprintKey(rawLine: string, parsed: ParsedLine): string {
    JoinKey(FieldOr(parsed, "host", UNKNOWN), FieldOr(parsed, "process", UNKNOWN),
            Normalize(FieldOr(parsed, "text", rawLine)))
  }

  /** The characters the line formats admit in a host or a process name. */
  predicate IsNameChar(c: char) {
    IsDigit(c) || 'a' <= c <= 'z' || IsUpper(c) || c == '.' || c == '_' || c == '-' || c == '/'
  }

  predicate IsName(s: string) { forall i :: 0 <= i < |s| ==> IsNameChar(s[i]) }

  predicate HasNames(parsed: ParsedLine) {
    parsed.Parsed? ==>
      && ("host" in parsed.fields ==> IsName(parsed.fields["host"]))
      && ("process" in parsed.fields ==> IsName(parsed.fields["process"]))
  }

  lemma {:induction false} SplitAtNul(a: string, x: string, b: string, y: string)
    requires '\0' !in a && '\0' !in b && a + "\0" + x == b + "\0" + y
    ensures a == b && x == y
  {
    var l, r := a + "\0" + x, b + "\0" + y;
    assert l[0] == (a + "\0")[0] && r[0] == (b + "\0")[0];
    if a == [] {
      assert l[1..] == x && r[1..] == y;
    } else {
      assert l[1..] == a[1..] + "\0" + x && r[1..] == b[1..] + "\0" + y;
      SplitAtNul(a[1..], x, b[1..], y);
      assert a == [a[0]] + a[1..] && b == [b[0]] + b[1..];
    }
  }

  lemma JoinKeyInjective(h: string, p: string, t: string, h': string, p': string, t': string)
    requires '\0' !in h && '\0' !in h' && '\0' !in p && '\0' !in p'
    requires JoinKey(h, p, t) == JoinKey(h', p', t')
    ensures h == h' && p == p' && t == t'
  {
    assert JoinKey(h, p, t) == h + "\0" + (p + "\0" + t);
    assert JoinKey(h', p', t') == h' + "\0" + (p' + "\0" + t');
    SplitAtNul(h, p + "\0" + t, h', p' + "\0" + t');
    SplitAtNul(p, t, p', t');
  }

  /** The line was parsed, and this field of it is not empty. */
  predicate HasField(parsed: ParsedLine, field: string) {
    parsed.Parsed? && field in parsed.fields && parsed.fields[field] != ""
  }

  /** Both lines lack the field, or it is the same in both. */
  ghost predicate AgreeOn(a: ParsedLine, b: ParsedLine, field: string) {
    HasField(a, field) == HasField(b, field) && (HasField(a, field) ==> a.fields[field] == b.fields[field])
  }

  lemma NamesApart(a: ParsedLine, b: ParsedLine, field: string)
    requires HasNames(a) && HasNames(b) && (field == "host" || field == "process")
    ensures var f := FieldOr(a, field, UNKNOWN);
            '\0' !in f && (f == FieldOr(b, field, UNKNOWN) <==> AgreeOn(a, b, field))
  {
    assert UNKNOWN[0] == '<';
  }

  lemma SameKeys(rawA: string, a: ParsedLine, rawB: string, b: ParsedLine)
    requires HasNames(a) && HasNames(b)
    ensures FingerprintKey(rawA, a) == FingerprintKey(rawB, b) <==>
            && FieldOr(a, "host", UNKNOWN) == FieldOr(b, "host", UNKNOWN)
            && FieldOr(a, "process", UNKNOWN) == FieldOr(b, "process", UNKNOWN)
            && Normalize(FieldOr(a, "text", rawA)) == Normalize(FieldOr(b, "text", rawB))
  {
    NamesApart(a, b, "host");
    NamesApart(b, a, "host");
    NamesApart(a, b, "process");
    NamesApart(b, a, "process");
    if FingerprintKey(rawA, a) == FingerprintKey(rawB, b) {
      JoinKeyInjective(
        FieldOr(a, "host", UNKNOWN), FieldOr(a, "process", UNKNOWN), Normalize(FieldOr(a, "text", rawA)),
        FieldOr(b, "host", UNKNOWN), FieldOr(b, "process", UNKNOWN), Normalize(FieldOr(b, "text", rawB)));
    }
  }

  /** Lines share a key exactly when they agree on host, on process (or lack them alike) and on the normalised text. */
  lemma FingerprintKeyInjective(rawA: string, a: ParsedLine, rawB: string, b: ParsedLine)
    requires HasNames(a) && HasNames(b)
    ensures FingerprintKey(rawA, a) == FingerprintKey(rawB, b) <==>
            && AgreeOn(a, b, "host") && AgreeOn(a, b, "process")
            && Normalize(if HasField(a, "text") then a.fields["text"] else rawA)
               == Normalize(if HasField(b, "text") then b.fields["text"] else rawB)
  {
    SameKeys(rawA, a, rawB, b);
    NamesApart(a, b, "host");
    NamesApart(a, b, "process");
  }

  /** A line that was not parsed counts as one of an unknown host and process. */
  lemma UnparsedKey(rawLine: string)
    ensures FingerprintKey(rawLine, Unparsed) == "<unknown>" + "\0" + "<unknown>" + "\0" + Normalize(rawLine)
  {
  }
}
