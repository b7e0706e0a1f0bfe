/**
 The expression for timestamp fields (alert_dedup.go): what it matches is exactly what the normaliser finds, and what
 becomes of a line that has such a field.
 */
module AlertFields {
  import opened TextRewrite
  import opened AlertText
  import opened AlertTimestamps
  import opened AlertWords
  import opened AlertLines
  import opened AlertPatterns

  const BLANK := Class((c: char) => c == ' ' || c == '\t' || c == '\n' || c == '\r' || c == '\U{0C}')

  function KeyExpression(): Regex {
    Then(Text("\""), Then(Or(Text("time"), Or(Text("timestamp"), Text("ts"))), Text("\"")))
  }

  /** What captures the name of the field, up to the quote its value begins with. */
  function NameExpression(): Regex {
    Then(KeyExpression(), Then(Star(BLANK), Then(Text(":"), Then(Star(BLANK), Text("\"")))))
  }

  function ZoneExpression(): Regex {
    Or(Text("z"), Then(Class((c: char) => c == '+' || c == '-'),
                       Then(Times(DIGIT, 2), Then(Text(":"), Times(DIGIT, 2)))))
  }

  function EndExpression(): Regex { Then(Maybe(Then(Text("."), Plus(DIGIT))), ZoneExpression()) }

  function ClockExpression(): Regex {
    Then(Times(DIGIT, 2), Then(Text(":"), Then(Times(DIGIT, 2), Then(Text(":"), Then(Times(DIGIT, 2),
      EndExpression())))))
  }

  function DateExpression(): Regex {
    Then(Times(DIGIT, 4), Then(Text("-"), Then(Times(DIGIT, 2), Then(Text("-"), Then(Times(DIGIT, 2),
      Then(Text("t"), ClockExpression()))))))
  }

  // ----- the name

  lemma Quoted(w: string, name: string)
    ensures w == "\"" + name + "\"" <==> |w| >= 2 && w[0] == '"' && w[1..|w| - 1] == name && w[|w| - 1] == '"'
  {
    if |w| >= 2 {
      assert w == [w[0]] + w[1..|w| - 1] + [w[|w| - 1]];
    }
  }

  lemma KeyIs(w: string)
    ensures Denotes(KeyExpression(), w) <==>
            w == "\"" + "time" + "\"" || w == "\"" + "timestamp" + "\"" || w == "\"" + "ts" + "\""
  {
    var names := KeyExpression().rest.first;
    Quoted(w, "time");
    Quoted(w, "timestamp");
    Quoted(w, "ts");
    OneFirst(Text("\""), KeyExpression().rest, 1, w);
    if w != [] {
      LastText(names, '"', w[1..]);
      assert w[..1] == [w[0]];
      if |w| >= 2 {
        var name := w[1..|w| - 1];
        assert w[1..][..|w| - 2] == name && w[1..][|w| - 2] == w[|w| - 1];
        assert Denotes(names.right, name) <==> name == "timestamp" || name == "ts";
      }
    }
  }

  /** Only one of the names can begin a text. */
  lemma KeyBeginsText(s: string, k: nat)
    requires k <= |s|
    ensures Denotes(KeyExpression(), s[..k]) <==> k > 0 && KeyLength(s) == k
  {
    KeyIs(s[..k]);
    assert "\"time\"" == "\"" + "time" + "\"" && "\"timestamp\"" == "\"" + "timestamp" + "\"";
    assert "\"ts\"" == "\"" + "ts" + "\"";
    assert "\"time\""[5] == '"' && "\"timestamp\""[5] == 's' && "\"ts\""[3] == '"' && "\"time\""[3] == 'm';
    if k <= |s| {
      assert forall i :: 0 <= i < k ==> s[..k][i] == s[i];
    }
  }

  lemma BlanksMeet(c: char, b: Regex, s: string, k: nat)
    requires !IsSpace(c)
    ensures Meet(Star(BLANK), Then(Text([c]), b), s, k) <==>
            k == SpaceRun(s) && k < |s| && s[k] == c && Denotes(b, s[k + 1..])
  {
    MeetIs(Star(BLANK), Then(Text([c]), b), s, k);
    if k <= |s| {
      StarOfClass(BLANK.has, s[..k]);
      assert forall j :: 0 <= j < k ==> s[..k][j] == s[j];
      OneAt(Text([c]), b, 1, s, k);
      if k < |s| {
        assert s[k..k + 1] == [s[k]];
      }
    }
  }

  /** Blanks, a mark, and what follows. */
  lemma BlanksFirst(c: char, b: Regex, s: string)
    requires !IsSpace(c)
    ensures Denotes(Then(Star(BLANK), Then(Text([c]), b)), s) <==>
              var i := SpaceRun(s); i < |s| && s[i] == c && Denotes(b, s[i + 1..])
  {
    var blanks, mark := Star(BLANK), Then(Text([c]), b);
    forall k: nat {:trigger Meet(blanks, mark, s, k)}
      ensures Meet(blanks, mark, s, k) <==> k == SpaceRun(s) && k < |s| && s[k] == c && Denotes(b, s[k + 1..])
    {
      BlanksMeet(c, b, s, k);
    }
    assert Meet(blanks, mark, s, SpaceRun(s)) ==> Denotes(Then(blanks, mark), s);
  }

  lemma MarkFirst(c: char, b: Regex, s: string, from: nat)
    requires !IsSpace(c) && from <= |s|
    ensures Denotes(Then(Star(BLANK), Then(Text([c]), b)), s[from..]) <==>
              var n := PastMark(s, from, c); n > 0 && Denotes(b, s[n..])
  {
    BlanksFirst(c, b, s[from..]);
    var i := SpaceRun(s[from..]);
    if from + i < |s| {
      assert s[from..][i] == s[from + i] && s[from..][i + 1..] == s[from + i + 1..];
    }
  }

  lemma BlanksLast(c: char, s: string, from: nat)
    requires !IsSpace(c) && from <= |s|
    ensures Denotes(Then(Star(BLANK), Text([c])), s[from..]) <==> PastMark(s, from, c) == |s| && s != []
  {
    var u := s[from..];
    LastText(Star(BLANK), c, u);
    if u != [] {
      StarOfClass(BLANK.has, u[..|u| - 1]);
      assert forall j :: 0 <= j < |u| - 1 ==> u[..|u| - 1][j] == u[j];
    }
  }

  lemma NameMeets(name: string, k: nat)
    ensures Meet(KeyExpression(), NameExpression().rest, name, k) <==>
            k > 0 && k == KeyLength(name) && ValueStart(name) == |name|
  {
    var colon := NameExpression().rest;
    MeetIs(KeyExpression(), colon, name, k);
    if k <= |name| {
      KeyBeginsText(name, k);
      MarkFirst(':', colon.rest.rest, name, k);
      var v := PastMark(name, k, ':');
      if v > 0 {
        BlanksLast('"', name, v);
      }
    }
  }

  /** A name matches the expression if and only if the value of a field starts behind it. */
  lemma NamesAreTheirExpression(name: string)
    ensures name != [] && ValueStart(name) == |name| <==> Denotes(NameExpression(), name)
  {
    var rest := NameExpression().rest;
    forall k: nat {:trigger Meet(KeyExpression(), rest, name, k)}
      ensures Meet(KeyExpression(), rest, name, k) <==>
              k > 0 && k == KeyLength(name) && ValueStart(name) == |name|
    {
      NameMeets(name, k);
    }
    assert Meet(KeyExpression(), rest, name, KeyLength(name)) ==> Denotes(NameExpression(), name);
  }

  // ----- the timestamp

  lemma TextAt(c: char, b: Regex, w: string, i: nat)
    requires i <= |w|
    ensures Denotes(Then(Text([c]), b), w[i..]) <==> i < |w| && w[i] == c && Denotes(b, w[i + 1..])
  {
    OneAt(Text([c]), b, 1, w, i);
    if i < |w| {
      assert w[i..i + 1] == [w[i]];
    }
  }

  /** A mark and two digits, twice, and what follows. */
  lemma MarkedPairsAt(c: char, b: Regex, w: string, i: nat)
    requires i <= |w|
    ensures Denotes(Then(Text([c]), Then(Times(DIGIT, 2), Then(Text([c]), Then(Times(DIGIT, 2), b)))), w[i..]) <==>
              && i + 6 <= |w| && w[i] == c && w[i + 3] == c
              && IsDigit(w[i + 1]) && IsDigit(w[i + 2]) && IsDigit(w[i + 4]) && IsDigit(w[i + 5])
              && Denotes(b, w[i + 6..])
  {
    var e := Then(Times(DIGIT, 2), b);
    TextAt(c, Then(Times(DIGIT, 2), Then(Text([c]), e)), w, i);
    if i + 1 <= |w| {
      DigitsAt(Then(Text([c]), e), 2, w, i + 1);
    }
    if i + 3 <= |w| {
      TextAt(c, e, w, i + 3);
    }
    if i + 4 <= |w| {
      DigitsAt(b, 2, w, i + 4);
    }
  }

  lemma ClockAt(t: string)
    requires |t| >= 11
    ensures Denotes(ClockExpression(), t[11..]) <==>
              && |t| >= 19 && t[13] == ':' && t[16] == ':'
              && (forall j :: 11 <= j < 19 && j != 13 && j != 16 ==> IsDigit(t[j]))
              && Denotes(EndExpression(), t[19..])
  {
    DigitsAt(ClockExpression().rest, 2, t, 11);
    if |t| >= 13 {
      MarkedPairsAt(':', EndExpression(), t, 13);
    }
  }

  lemma DateAt(t: string)
    ensures Denotes(DateExpression(), t) <==>
              && |t| >= 11 && t[4] == '-' && t[7] == '-' && t[10] == 't'
              && (forall j :: 0 <= j < 10 && j != 4 && j != 7 ==> IsDigit(t[j]))
              && Denotes(ClockExpression(), t[11..])
  {
    assert t[0..] == t;
    DigitsAt(DateExpression().rest, 4, t, 0);
    if |t| >= 4 {
      MarkedPairsAt('-', Then(Text("t"), ClockExpression()), t, 4);
    }
    if |t| >= 10 {
      TextAt('t', ClockExpression(), t, 10);
    }
  }

  lemma DateAndClock(t: string)
    ensures Denotes(DateExpression(), t) <==>
              |t| >= 19 && IsDateTime(t[..19]) && Denotes(EndExpression(), t[19..])
  {
    DateAt(t);
    if |t| >= 11 {
      ClockAt(t);
    }
    if |t| >= 19 {
      assert forall j :: 0 <= j < 19 ==> t[..19][j] == t[j];
    }
  }

  lemma OffsetIs(e: string)
    ensures Denotes(ZoneExpression().right, e) <==>
              && |e| == 6 && (e[0] == '+' || e[0] == '-') && e[3] == ':'
              && IsDigit(e[1]) && IsDigit(e[2]) && IsDigit(e[4]) && IsDigit(e[5])
  {
    var offset := ZoneExpression().right;
    ClassFirst(offset.first.has, offset.rest, e);
    if e != [] {
      DigitsAt(Then(Text(":"), Times(DIGIT, 2)), 2, e, 1);
      if |e| >= 3 {
        TextAt(':', Times(DIGIT, 2), e, 3);
      }
      if |e| >= 4 {
        TimesOfClass(DIGIT.has, 2, e[4..]);
        assert |e| == 6 ==> e[4..] == [e[4], e[5]];
      }
    }
  }

  lemma ZoneLengthIs(u: string)
    ensures ZoneLength(u) ==
            if |u| >= 1 && u[0] == 'z' then 1
            else if |u| >= 6 && (u[0] == '+' || u[0] == '-') && u[3] == ':'
                    && IsDigit(u[1]) && IsDigit(u[2]) && IsDigit(u[4]) && IsDigit(u[5]) then 6
            else 0
  {
    if |u| >= 6 {
      assert u[1..3] == [u[1], u[2]] && u[4..6] == [u[4], u[5]];
    }
  }

  /** A zone that a quote follows. */
  lemma ZoneIsItsExpression(e: string)
    ensures Denotes(ZoneExpression(), e) <==> ZoneLength(e + "\"") == |e| && e != []
  {
    OffsetIs(e);
    ZoneLengthIs(e + "\"");
    if e != [] {
      assert (e + "\"")[0] == e[0];
    }
    assert Denotes(Text("z"), e) <==> |e| == 1 && e[0] == 'z';
  }

  lemma FractionIs(e: string, k: nat)
    requires k <= |e|
    ensures Denotes(Maybe(Then(Text("."), Plus(DIGIT))), e[..k]) <==>
              k == 0 || (k >= 2 && e[0] == '.' && AllDigits(e[1..k]))
  {
    var f := e[..k];
    OneFirst(Text("."), Plus(DIGIT), 1, f);
    if k >= 1 {
      assert f[..1] == [e[0]] && f[1..] == e[1..k];
      PlusOfClass(DIGIT.has, e[1..k]);
    }
  }

  lemma FractionEnds(e: string, k: nat)
    requires k < |e| && !IsDigit(e[k]) && e[k] != '.'
    ensures k == 0 || (k >= 2 && e[0] == '.' && AllDigits(e[1..k])) <==> k == FractionLength(e + "\"")
  {
    var u := e + "\"";
    assert forall i :: 0 <= i < |e| ==> u[i] == e[i];
    assert u[1..] == e[1..] + "\"";
    if k >= 2 && AllDigits(e[1..k]) {
      assert u[1..][..k - 1] == e[1..k];
      RunIs(u[1..], k - 1);
    }
    if u[0] == '.' {
      var d := DigitRun(u[1..]);
      assert d < |u[1..]| && u[1..][d] == u[d + 1];
      assert u[1..][..d] == u[1..d + 1];
      assert d + 1 == k ==> e[1..k] == u[1..][..d];
    }
  }

  lemma EndMeets(e: string, k: nat)
    ensures Meet(EndExpression().first, ZoneExpression(), e, k) <==>
              k == FractionLength(e + "\"") && k < |e| && ZoneLength((e + "\"")[k..]) == |e| - k
  {
    MeetIs(EndExpression().first, ZoneExpression(), e, k);
    if k < |e| {
      assert (e + "\"")[k..] == e[k..] + "\"";
      ZoneIsItsExpression(e[k..]);
      ZoneLengthIs(e[k..] + "\"");
      FractionIs(e, k);
      if e[k] == 'z' || e[k] == '+' || e[k] == '-' {
        FractionEnds(e, k);
      }
    } else if k == |e| {
      OffsetIs(e[k..]);
    }
  }

  lemma EndIsItsExpression(e: string)
    ensures Denotes(EndExpression(), e) <==>
              var u, f := e + "\"", FractionLength(e + "\""); f < |e| && ZoneLength(u[f..]) == |e| - f
  {
    var a, b := EndExpression().first, ZoneExpression();
    forall k: nat {:trigger Meet(a, b, e, k)}
      ensures Meet(a, b, e, k) <==>
                k == FractionLength(e + "\"") && k < |e| && ZoneLength((e + "\"")[k..]) == |e| - k
    {
      EndMeets(e, k);
    }
    assert Meet(a, b, e, FractionLength(e + "\"")) ==> Denotes(EndExpression(), e);
  }

  /** A time that a quote follows matches the expression if and only if it is a timestamp. */
  lemma TimesAreTheirExpression(t: string)
    ensures t != [] && TimestampLength(t + "\"") == |t| <==> Denotes(DateExpression(), t)
  {
    var s := t + "\"";
    DateAndClock(t);
    if |t| >= 19 {
      assert s[..19] == t[..19] && s[19..] == t[19..] + "\"";
      EndIsItsExpression(t[19..]);
      var f := FractionLength(s[19..]);
      assert s[19..][f..] == s[19 + f..];
      ZoneLengthIs(s[19 + f..]);
    } else if |t| == 18 {
      assert s[..19][18] == '"';
    }
  }

  /** A timestamp field is found if and only if the expression matches. */
  lemma FieldsAreTheirExpression(name: string, t: string)
    ensures IsField(name, t) <==> Denotes(NameExpression(), name) && Denotes(DateExpression(), t)
  {
    var s := name + (t + "\"");
    NamesAreTheirExpression(name);
    TimesAreTheirExpression(t);
    assert s[..|name|] == name && s[|name|..] == t + "\"";
    ValueOfPrefix(s, |name|);
  }

  // ----- where fields are found

  lemma NameEnds(s: string, v: nat)
    requires 0 < v <= |s|
    ensures ValueStart(s) == v <==> Denotes(NameExpression(), s[..v])
  {
    NamesAreTheirExpression(s[..v]);
    ValueOfPrefix(s, v);
  }

  lemma TimeEnds(u: string, n: nat)
    requires 0 < n < |u|
    ensures TimestampLength(u) == n <==> u[n] == '"' && Denotes(DateExpression(), u[..n])
  {
    if u[n] == '"' {
      assert u[..n + 1] == u[..n] + "\"";
      TimesAreTheirExpression(u[..n]);
      TimestampOfPrefix(u, n + 1);
    }
  }

  /**
   A field is found at the head of a text, with its value from `v` on and `n` long, if and only if the text begins with
   a name, a timestamp and a quote.
   */
  lemma FieldsAreFoundExactly(s: string, v: nat, n: nat)
    ensures TimestampField(s) == (v, n) && n > 0 <==>
              && v + n < |s| && s[v + n] == '"'
              && Denotes(NameExpression(), s[..v]) && Denotes(DateExpression(), s[v..v + n])
  {
    if 0 < v && 0 < n && v + n < |s| {
      NameEnds(s, v);
      TimeEnds(s[v..], n);
      assert s[v..][n] == s[v + n] && s[v..][..n] == s[v..v + n];
    } else if v + n < |s| {
      NamesAreTheirExpression(s[..v]);
      TimesAreTheirExpression(s[v..v + n]);
    }
  }

  // ----- what becomes of a line with a field

  function NameText(key: string, x: string, y: string): string {
    "\"" + (key + ("\"" + (x + (":" + (y + "\"")))))
  }

  /** Text without any mark of a pattern. */
  predicate IsUnmarked(u: string) {
    forall i :: 0 <= i < |u| ==>
      u[i] != '-' && u[i] != '[' && u[i] != '.' && u[i] != 'x' && u[i] != 'X' && !IsDigit(u[i])
  }

  lemma UnmarkedIsKept(u: string)
    requires IsUnmarked(u)
    ensures ReplacePatterns(u) == u
  {
    forall q ensures Free(Finder(q), false, u) {
      UnmarkedIsFree(q, false, u);
    }
    PatternsUnchanged(u);
  }

  /** Text that begins and ends with a separator is rewritten by itself. */
  lemma RewrittenBetween(f: string -> string, a: string, u: string, b: string)
    requires Separates(f) && u != [] && IsSeparator(u[0]) && IsSeparator(u[|u| - 1])
    ensures f(a + (u + b)) == f(a) + (f(u) + f(b))
  {
    var before, c := u[..|u| - 1], u[|u| - 1];
    assert u == before + [c] && u + b == before + ([c] + b) && [c] == [c] + [];
    assert Splits(f, a, u + b);
    assert Splits(f, before, [c] + b) && Splits(f, before, [c] + []);
    assert Keeps(f, c, b) && Keeps(f, c, []);
    Prepend(f(before), [c], f(b));
  }

  lemma FieldIsKept(a: string, u: string, b: string)
    requires IsUnmarked(u) && u != [] && IsSeparator(u[0]) && IsSeparator(u[|u| - 1])
    ensures ReplacePatterns(a + (u + b)) == ReplacePatterns(a) + (u + ReplacePatterns(b))
  {
    PatternsSeparate();
    RewrittenBetween(ReplacePatterns, a, u, b);
    UnmarkedIsKept(u);
  }

  predicate IsKey(key: string) { key == "time" || key == "timestamp" || key == "ts" }

  /** The field once its timestamp is replaced. */
  function FieldText(key: string, x: string, y: string): string {
    FieldHead("<timestamp>", NameText(key, x, y), '"')
  }

  function Joined(a: string, x: string, c: string, y: string, m: string): string { a + (x + (c + (y + m))) }

  lemma JoinedThen(a: string, x: string, c: string, y: string, m: string, b: string)
    ensures Joined(a, x, c, y, m) + b == a + (x + (c + (y + (m + b))))
  {
    Prepend(y, m, b);
    Prepend(c, y + m, b);
    Prepend(x, c + (y + m), b);
    Prepend(a, x + (c + (y + m)), b);
  }

  /** The field in normal form. */
  function NormalField(key: string, x: string, y: string): string {
    Joined("\"" + (key + "\""), Gap(x), ":", Gap(y), "\"<timestamp>\"")
  }

  lemma FieldIsJoined(key: string, x: string, y: string)
    ensures FieldText(key, x, y) == Joined("\"" + (key + "\""), x, ":", y, "\"<timestamp>\"")
  {
    assert "\"<timestamp>\"" == "\"" + "<timestamp>" + "\"";
  }

  lemma FieldShape(key: string, x: string, y: string)
    requires IsKey(key) && AllBlank(x) && AllBlank(y)
    ensures var u := FieldText(key, x, y); IsUnmarked(u) && u != [] && u[0] == '"' && u[|u| - 1] == '"'
  {
    FieldIsJoined(key, x, y);
    assert IsUnmarked("\"" + (key + "\"")) && IsUnmarked("\"<timestamp>\"");
    assert IsUnmarked(x) && IsUnmarked(y) && IsUnmarked(":");
  }

  lemma PartsCollapse(q: string, x: string, c: string, y: string, m: string, b: string)
    requires IsUntrimmed(q) && AllBlank(x) && IsSolid(c) && AllBlank(y) && IsSolid(m)
    ensures Collapse(false, q + (x + (c + (y + (m + b)))))
            == q + (Gap(x) + (c + (Gap(y) + (m + Collapse(false, b)))))
  {
    var l, r := m + b, c + (y + (m + b));
    assert l[0] == m[0] && r[0] == c[0];
    SolidIsCopied(false, m, b);
    BlanksCollapse(y, l);
    SolidIsCopied(false, c, y + l);
    BlanksCollapse(x, r);
    SolidIsCopied(false, q, x + r);
  }

  lemma FieldCollapses(key: string, x: string, y: string, b: string)
    requires IsKey(key) && AllBlank(x) && AllBlank(y)
    ensures Collapse(false, FieldText(key, x, y) + b) == NormalField(key, x, y) + Collapse(false, b)
  {
    var q, m := "\"" + (key + "\""), "\"<timestamp>\"";
    FieldIsJoined(key, x, y);
    JoinedThen(q, x, ":", y, m, b);
    JoinedThen(q, Gap(x), ":", Gap(y), m, Collapse(false, b));
    PartsCollapse(q, x, ":", y, m, b);
  }

  /** What stands around text with clean ends is collapsed and trimmed by itself. */
  lemma TrimmedAround(x: string, u: string, m: string, y: string)
    requires u != [] && !IsSpace(u[0]) && Collapse(false, u + y) == m + Collapse(false, y)
    requires m != [] && !IsTrimmed(m[0]) && !IsTrimmed(m[|m| - 1])
    ensures TrimRight(TrimLeft(CollapseSpace(x + (u + y))))
            == TrimLeft(CollapseSpace(x)) + (m + TrimRight(CollapseSpace(y)))
  {
    var cx, cy := CollapseSpace(x), CollapseSpace(y);
    assert (u + y)[0] == u[0] && (m + cy)[0] == m[0];
    CollapseSplits(false, x, u + y);
    assert CollapseSpace(x + (u + y)) == cx + (m + cy);
    TrimLeftStops(cx, m + cy);
    Prepend(TrimLeft(cx), m, cy);
    TrimRightStops(TrimLeft(cx) + m, cy);
    Prepend(TrimLeft(cx), m, TrimRight(cy));
  }

  lemma LowerName(key: string, x: string, y: string)
    requires AllBlank(x) && AllBlank(y)
    ensures ToLower(NameText(key, x, y)) == NameText(ToLower(key), x, y)
  {
    assert ToLower(x) == x && ToLower(y) == y;
    assert ToLower("\"") == "\"" && ToLower(":") == ":";
    LowerJoins("\"", key + ("\"" + (x + (":" + (y + "\"")))));
    LowerJoins(key, "\"" + (x + (":" + (y + "\""))));
    LowerJoins("\"", x + (":" + (y + "\"")));
    LowerJoins(x, ":" + (y + "\""));
    LowerJoins(":", y + "\"");
    LowerJoins(y, "\"");
  }

  lemma BlanksThenQuote(y: string)
    requires AllBlank(y)
    ensures Denotes(Then(Star(BLANK), Text("\"")), y + "\"")
  {
    var u := y + "\"";
    LastText(Star(BLANK), '"', u);
    assert u[..|u| - 1] == y;
    StarOfClass(BLANK.has, y);
  }

  lemma BehindKey(x: string, y: string)
    requires AllBlank(x) && AllBlank(y)
    ensures Denotes(NameExpression().rest, x + (":" + (y + "\"")))
  {
    var u := x + (":" + (y + "\""));
    BlankRun(x, ":" + (y + "\""));
    assert u[|x|] == ':' && u[|x| + 1..] == y + "\"";
    BlanksThenQuote(y);
    BlanksFirst(':', Then(Star(BLANK), Text("\"")), u);
  }

  lemma NameTextMatches(key: string, x: string, y: string)
    requires IsKey(key) && AllBlank(x) && AllBlank(y)
    ensures Denotes(NameExpression(), NameText(key, x, y))
  {
    var name, k, rest := NameText(key, x, y), |key| + 2, x + (":" + (y + "\""));
    assert name == ("\"" + key + "\"") + rest;
    assert name[..k] == "\"" + key + "\"" && name[k..] == rest;
    KeyIs(name[..k]);
    BehindKey(x, y);
    MeetIs(KeyExpression(), NameExpression().rest, name, k);
  }

  lemma PreparedField(a: string, key: string, x: string, y: string, t: string, b: string)
    requires EndsOutsideTimestamp(a) && IsKey(ToLower(key)) && AllBlank(x) && AllBlank(y)
    requires Denotes(DateExpression(), ToLower(t))
    ensures Prepared(a + (NameText(key, x, y) + (t + ("\"" + b))))
            == Prepared(a) + (FieldText(ToLower(key), x, y) + Prepared(b))
  {
    var name := NameText(ToLower(key), x, y);
    LowerParts(a, NameText(key, x, y), t, b);
    LowerName(key, x, y);
    NameTextMatches(ToLower(key), x, y);
    FieldsAreTheirExpression(name, ToLower(t));
    TimestampIsMasked(ToLower(a), name, ToLower(t), ToLower(b));
  }

  /**
   The normal form of a line with a timestamp field has `<timestamp>` in the place of the timestamp, the name of the
   field in lower case and its blanks collapsed, between what the text before and behind becomes by itself.
   */
  lemma TimestampIsMaskedInLine(a: string, key: string, x: string, y: string, t: string, b: string)
    requires EndsOutsideTimestamp(a) && IsKey(ToLower(key)) && AllBlank(x) && AllBlank(y)
    requires Denotes(DateExpression(), ToLower(t))
    ensures Normalize(a + (NameText(key, x, y) + (t + ("\"" + b))))
            == Front(a) + (NormalField(ToLower(key), x, y) + Back(b))
  {
    var k := ToLower(key);
    var u, m := FieldText(k, x, y), NormalField(k, x, y);
    PreparedField(a, key, x, y, t, b);
    FieldShape(k, x, y);
    FieldIsKept(Prepared(a), u, Prepared(b));
    FieldCollapses(k, x, y, ReplacePatterns(Prepared(b)));
    assert m[0] == '"' && m[|m| - 1] == '"';
    TrimmedAround(ReplacePatterns(Prepared(a)), u, m, ReplacePatterns(Prepared(b)));
  }

  /** So lines that differ in the value of one timestamp field look alike. */
  lemma TimestampsLookAlike(a: string, key: string, x: string, y: string, t: string, u: string, b: string)
    requires EndsOutsideTimestamp(a) && IsKey(ToLower(key)) && AllBlank(x) && AllBlank(y)
    requires Denotes(DateExpression(), ToLower(t)) && Denotes(DateExpression(), ToLower(u))
    ensures Normalize(a + (NameText(key, x, y) + (t + ("\"" + b))))
            == Normalize(a + (NameText(key, x, y) + (u + ("\"" + b))))
  {
    TimestampIsMaskedInLine(a, key, x, y, t, b);
    TimestampIsMaskedInLine(a, key, x, y, u, b);
  }
}
