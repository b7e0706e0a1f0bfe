/**
 The regular expressions of the normaliser (alert_dedup.go), written out as such, with the usual meaning: the five
 patterns of AlertText are the languages of their expressions. The expression for timestamps is in AlertFields.
 */
module AlertPatterns {
  import opened TextRewrite
  import opened AlertText

  datatype Regex =
    | Text(s: string)
    | Class(has: char -> bool)
    | Then(first: Regex, rest: Regex)
    | Or(left: Regex, right: Regex)
    | Star(each: Regex)

  /** The texts an expression matches. */
  ghost predicate Denotes(r: Regex, w: string)
    decreases r, |w|, 1
  {
    match r
    case Text(s) => w == s
    case Class(has) => |w| == 1 && has(w[0])
    case Then(a, b) => exists k :: Meet(a, b, w, k)
    case Or(a, b) => Denotes(a, w) || Denotes(b, w)
    case Star(a) => w == [] || exists k :: 0 < k <= |w| && Denotes(a, w[..k]) && Denotes(Star(a), w[k..])
  }

  /** The one matches up to `k`, the other from there on. */
  ghost predicate Meet(a: Regex, b: Regex, w: string, k: nat)
    decreases Then(a, b), |w|, 0
  {
    k <= |w| && Denotes(a, w[..k]) && Denotes(b, w[k..])
  }

  function Times(r: Regex, n: nat): Regex { if n == 0 then Text("") else Then(r, Times(r, n - 1)) }

  function Plus(r: Regex): Regex { Then(r, Star(r)) }

  function Maybe(r: Regex): Regex { Or(Text(""), r) }

  // ----- how the parts match

  lemma MeetIs(a: Regex, b: Regex, w: string, k: nat)
    ensures Meet(a, b, w, k) <==> k <= |w| && Denotes(a, w[..k]) && Denotes(b, w[k..])
  {
  }

  lemma OneFirst(a: Regex, b: Regex, n: nat, w: string)
    requires forall u :: Denotes(a, u) ==> |u| == n
    ensures Denotes(Then(a, b), w) <==> n <= |w| && Denotes(a, w[..n]) && Denotes(b, w[n..])
  {
    forall k: nat {:trigger Meet(a, b, w, k)}
      ensures Meet(a, b, w, k) <==> k <= |w| && Denotes(a, w[..k]) && Denotes(b, w[k..])
    {
    }
    assert Meet(a, b, w, n) <==> n <= |w| && Denotes(a, w[..n]) && Denotes(b, w[n..]);
  }

  lemma ClassFirst(has: char -> bool, b: Regex, w: string)
    ensures Denotes(Then(Class(has), b), w) <==> w != [] && has(w[0]) && Denotes(b, w[1..])
  {
    OneFirst(Class(has), b, 1, w);
  }

  lemma {:induction false} TimesOfClass(has: char -> bool, n: nat, w: string)
    ensures Denotes(Times(Class(has), n), w) <==> |w| == n && forall i :: 0 <= i < |w| ==> has(w[i])
  {
    if n == 0 {
    } else {
      ClassFirst(has, Times(Class(has), n - 1), w);
      if w != [] {
        TimesOfClass(has, n - 1, w[1..]);
        assert w == [w[0]] + w[1..];
      }
    }
  }

  lemma {:induction false} StarOfClass(has: char -> bool, w: string)
    ensures Denotes(Star(Class(has)), w) <==> forall i :: 0 <= i < |w| ==> has(w[i])
    decreases |w|
  {
    if w == [] {
    } else {
      StarOfClass(has, w[1..]);
      assert w == [w[0]] + w[1..];
      assert Denotes(Class(has), w[..1]) <==> has(w[0]);
      assert Denotes(Star(Class(has)), w) <==> Denotes(Class(has), w[..1]) && Denotes(Star(Class(has)), w[1..]);
    }
  }

  lemma PlusOfClass(has: char -> bool, w: string)
    ensures Denotes(Plus(Class(has)), w) <==> w != [] && forall i :: 0 <= i < |w| ==> has(w[i])
  {
    ClassFirst(has, Star(Class(has)), w);
    if w != [] {
      StarOfClass(has, w[1..]);
      assert w == [w[0]] + w[1..];
    }
  }

  /** A part of one length, some way into a text. */
  lemma OneAt(a: Regex, b: Regex, n: nat, w: string, i: nat)
    requires i <= |w| && forall u :: Denotes(a, u) ==> |u| == n
    ensures Denotes(Then(a, b), w[i..]) <==> i + n <= |w| && Denotes(a, w[i..i + n]) && Denotes(b, w[i + n..])
  {
    OneFirst(a, b, n, w[i..]);
    if i + n <= |w| {
      assert w[i..][..n] == w[i..i + n] && w[i..][n..] == w[i + n..];
    }
  }

  // ----- the identifiers

  const HEX := Class((c: char) => '0' <= c <= '9' || 'a' <= c <= 'f' || 'A' <= c <= 'F')

  function Dash(r: Regex): Regex { Then(Text("-"), r) }

  function UuidEnd(): Regex {
    Then(Class((c: char) => c == '8' || c == '9' || c == 'a' || c == 'b' || c == 'A' || c == 'B'),
         Then(Times(HEX, 3), Dash(Times(HEX, 12))))
  }

  function UuidRest(): Regex {
    Then(Class((c: char) => '1' <= c <= '5'), Then(Times(HEX, 3), Dash(UuidEnd())))
  }

  function UuidExpression(): Regex {
    Then(Times(HEX, 8), Dash(Then(Times(HEX, 4), Dash(UuidRest()))))
  }

  lemma HexAt(b: Regex, n: nat, w: string, i: nat)
    requires i <= |w|
    ensures Denotes(Then(Times(HEX, n), b), w[i..])
            <==> i + n <= |w| && (forall j :: i <= j < i + n ==> IsHexDigit(w[j])) && Denotes(b, w[i + n..])
  {
    forall u ensures Denotes(Times(HEX, n), u) <==> |u| == n && forall j :: 0 <= j < |u| ==> IsHexDigit(u[j]) {
      TimesOfClass(HEX.has, n, u);
    }
    OneAt(Times(HEX, n), b, n, w, i);
    if i + n <= |w| {
      var u := w[i..i + n];
      assert forall j :: 0 <= j < n ==> u[j] == w[i + j];
      assert forall j :: i <= j < i + n ==> w[j] == u[j - i];
    }
  }

  lemma DashAt(b: Regex, w: string, i: nat)
    requires i <= |w|
    ensures Denotes(Dash(b), w[i..]) <==> i < |w| && w[i] == '-' && Denotes(b, w[i + 1..])
  {
    OneAt(Text("-"), b, 1, w, i);
    if i < |w| {
      assert w[i..i + 1] == [w[i]];
    }
  }

  lemma ClassAt(has: char -> bool, b: Regex, w: string, i: nat)
    requires i <= |w|
    ensures Denotes(Then(Class(has), b), w[i..]) <==> i < |w| && has(w[i]) && Denotes(b, w[i + 1..])
  {
    OneAt(Class(has), b, 1, w, i);
  }

  lemma UuidEnds(w: string)
    requires |w| >= 19
    ensures Denotes(UuidEnd(), w[19..]) <==>
            && |w| == 36 && w[23] == '-'
            && (w[19] == '8' || w[19] == '9' || w[19] == 'a' || w[19] == 'b' || w[19] == 'A' || w[19] == 'B')
            && forall j :: 20 <= j < 36 && j != 23 ==> IsHexDigit(w[j])
  {
    ClassAt(UuidEnd().first.has, UuidEnd().rest, w, 19);
    if |w| >= 24 {
      HexAt(Dash(Times(HEX, 12)), 3, w, 20);
      DashAt(Times(HEX, 12), w, 23);
      TimesOfClass(HEX.has, 12, w[24..]);
      assert forall j :: 24 <= j < |w| ==> w[24..][j - 24] == w[j];
      assert forall j :: 0 <= j < |w| - 24 ==> w[24..][j] == w[24 + j];
    } else if |w| >= 20 {
      HexAt(Dash(Times(HEX, 12)), 3, w, 20);
      if |w| == 23 {
        DashAt(Times(HEX, 12), w, 23);
      }
    }
  }

  lemma UuidGoesOn(w: string)
    requires |w| >= 14
    ensures Denotes(UuidRest(), w[14..]) <==>
            && |w| >= 19 && '1' <= w[14] <= '5' && w[18] == '-'
            && (forall j :: 15 <= j < 18 ==> IsHexDigit(w[j])) && Denotes(UuidEnd(), w[19..])
  {
    ClassAt(UuidRest().first.has, UuidRest().rest, w, 14);
    if |w| >= 15 {
      HexAt(Dash(UuidEnd()), 3, w, 15);
      if |w| >= 18 {
        DashAt(UuidEnd(), w, 18);
      }
    }
  }

  lemma UuidIsItsExpression(w: string)
    ensures InLanguage(Uuid, w) <==> Denotes(UuidExpression(), w)
  {
    assert w[0..] == w;
    HexAt(Dash(Then(Times(HEX, 4), Dash(UuidRest()))), 8, w, 0);
    if |w| >= 8 {
      DashAt(Then(Times(HEX, 4), Dash(UuidRest())), w, 8);
    }
    if |w| >= 9 {
      HexAt(Dash(UuidRest()), 4, w, 9);
    }
    if |w| >= 13 {
      DashAt(UuidRest(), w, 13);
    }
    if |w| >= 14 {
      UuidGoesOn(w);
    }
    if |w| >= 19 {
      UuidEnds(w);
    }
  }

  // ----- addresses and numbers

  const DIGIT := Class((c: char) => '0' <= c <= '9')

  function BracketedIp6Expression(): Regex {
    Then(Text("["),
         Then(Plus(Class((c: char) => '0' <= c <= '9' || 'a' <= c <= 'f' || 'A' <= c <= 'F' || c == ':')), Text("]")))
  }

  function OneToThreeDigits(): Regex { Or(DIGIT, Or(Times(DIGIT, 2), Times(DIGIT, 3))) }

  function Ip4Expression(): Regex { Then(Times(Then(OneToThreeDigits(), Text(".")), 3), OneToThreeDigits()) }

  function HexExpression(): Regex { Then(Text("0"), Then(Or(Text("x"), Text("X")), Plus(HEX))) }

  function NumberExpression(): Regex { Then(Times(DIGIT, 4), Star(DIGIT)) }

  lemma LastText(a: Regex, c: char, w: string)
    ensures Denotes(Then(a, Text([c])), w) <==> w != [] && w[|w| - 1] == c && Denotes(a, w[..|w| - 1])
  {
    if k: nat :| Meet(a, Text([c]), w, k) {
      MeetIs(a, Text([c]), w, k);
      assert k == |w| - 1 && w[k..][0] == w[k];
    }
    if w != [] && w[|w| - 1] == c && Denotes(a, w[..|w| - 1]) {
      assert w[|w| - 1..] == [c];
      MeetIs(a, Text([c]), w, |w| - 1);
      assert Meet(a, Text([c]), w, |w| - 1);
    }
  }

  lemma BracketedIp6IsItsExpression(w: string)
    ensures InLanguage(BracketedIp6, w) <==> Denotes(BracketedIp6Expression(), w)
  {
    var r := BracketedIp6Expression().rest;
    OneFirst(Text("["), r, 1, w);
    if w != [] {
      assert w[..1] == [w[0]];
      LastText(r.first, ']', w[1..]);
      if |w| >= 2 {
        var u := w[1..][..|w| - 2];
        PlusOfClass(r.first.first.has, u);
        assert forall i :: 0 < i < |w| - 1 ==> u[i - 1] == w[i];
        assert forall i :: 0 <= i < |u| ==> u[i] == w[i + 1];
      }
    }
  }

  lemma HexIsItsExpression(w: string)
    ensures InLanguage(Hex, w) <==> Denotes(HexExpression(), w)
  {
    var r := HexExpression().rest;
    assert w[0..] == w;
    OneAt(Text("0"), r, 1, w, 0);
    if |w| >= 1 {
      OneAt(r.first, r.rest, 1, w, 1);
      assert w[0..1] == [w[0]];
    }
    if |w| >= 2 {
      PlusOfClass(HEX.has, w[2..]);
      assert w[1..2] == [w[1]];
      assert forall i :: 2 <= i < |w| ==> w[2..][i - 2] == w[i];
    }
  }

  lemma DigitsAt(b: Regex, n: nat, w: string, i: nat)
    requires i <= |w|
    ensures Denotes(Then(Times(DIGIT, n), b), w[i..])
            <==> i + n <= |w| && (forall j :: i <= j < i + n ==> IsDigit(w[j])) && Denotes(b, w[i + n..])
  {
    forall u ensures Denotes(Times(DIGIT, n), u) <==> |u| == n && forall j :: 0 <= j < |u| ==> IsDigit(u[j]) {
      TimesOfClass(DIGIT.has, n, u);
    }
    OneAt(Times(DIGIT, n), b, n, w, i);
    if i + n <= |w| {
      var u := w[i..i + n];
      assert forall j :: 0 <= j < n ==> u[j] == w[i + j];
      assert forall j :: i <= j < i + n ==> w[j] == u[j - i];
    }
  }

  lemma NumberIsItsExpression(w: string)
    ensures InLanguage(Number, w) <==> Denotes(NumberExpression(), w)
  {
    assert w[0..] == w;
    DigitsAt(Star(DIGIT), 4, w, 0);
    if |w| >= 4 {
      StarOfClass(DIGIT.has, w[4..]);
      assert forall i :: 4 <= i < |w| ==> w[4..][i - 4] == w[i];
    }
  }

  lemma DigitGroup(w: string)
    ensures Denotes(OneToThreeDigits(), w) <==> 1 <= |w| <= 3 && AllDigits(w)
  {
    TimesOfClass(DIGIT.has, 2, w);
    TimesOfClass(DIGIT.has, 3, w);
  }

  ghost predicate ThreeParts(a: Regex, b: Regex, c: Regex, w: string, j: nat, k: nat) {
    j <= k <= |w| && Denotes(a, w[..j]) && Denotes(b, w[j..k]) && Denotes(c, w[k..])
  }

  lemma PartsMeet(a: Regex, b: Regex, c: Regex, w: string, j: nat, k: nat)
    requires ThreeParts(a, b, c, w, j, k)
    ensures Denotes(Then(Then(a, b), c), w) && Denotes(Then(a, Then(b, c)), w)
  {
    assert w[..k][..j] == w[..j] && w[..k][j..] == w[j..k] && w[j..][..k - j] == w[j..k] && w[j..][k - j..] == w[k..];
    MeetIs(a, b, w[..k], j);
    MeetIs(Then(a, b), c, w, k);
    MeetIs(b, c, w[j..], k - j);
    MeetIs(a, Then(b, c), w, j);
  }

  lemma PartsOfLeft(a: Regex, b: Regex, c: Regex, w: string) returns (j: nat, k: nat)
    requires Denotes(Then(Then(a, b), c), w)
    ensures ThreeParts(a, b, c, w, j, k)
  {
    k :| Meet(Then(a, b), c, w, k);
    MeetIs(Then(a, b), c, w, k);
    j :| Meet(a, b, w[..k], j);
    MeetIs(a, b, w[..k], j);
    assert w[..k][..j] == w[..j] && w[..k][j..] == w[j..k];
  }

  lemma PartsOfRight(a: Regex, b: Regex, c: Regex, w: string) returns (j: nat, k: nat)
    requires Denotes(Then(a, Then(b, c)), w)
    ensures ThreeParts(a, b, c, w, j, k)
  {
    j :| Meet(a, Then(b, c), w, j);
    MeetIs(a, Then(b, c), w, j);
    var n: nat :| Meet(b, c, w[j..], n);
    MeetIs(b, c, w[j..], n);
    k := j + n;
    assert w[j..][..n] == w[j..k] && w[j..][n..] == w[k..];
  }

  lemma Regroup(a: Regex, b: Regex, c: Regex, w: string)
    ensures Denotes(Then(Then(a, b), c), w) <==> Denotes(Then(a, Then(b, c)), w)
  {
    if Denotes(Then(Then(a, b), c), w) {
      var j, k := PartsOfLeft(a, b, c, w);
      PartsMeet(a, b, c, w, j, k);
    }
    if Denotes(Then(a, Then(b, c)), w) {
      var j, k := PartsOfRight(a, b, c, w);
      PartsMeet(a, b, c, w, j, k);
    }
  }

  lemma {:induction false} RunIs(w: string, k: nat)
    requires k <= |w| && AllDigits(w[..k]) && (k < |w| ==> !IsDigit(w[k]))
    ensures DigitRun(w) == k
  {
    if k == 0 {
    } else {
      assert w[..k][0] == w[0] && w[..k][1..] == w[1..][..k - 1];
      RunIs(w[1..], k - 1);
    }
  }

  lemma DotAt(b: Regex, w: string, i: nat)
    requires i <= |w|
    ensures Denotes(Then(Text("."), b), w[i..]) <==> i < |w| && w[i] == '.' && Denotes(b, w[i + 1..])
  {
    OneAt(Text("."), b, 1, w, i);
    if i < |w| {
      assert w[i..i + 1] == [w[i]];
    }
  }

  lemma GroupMeets(b: Regex, w: string, k: nat)
    ensures Meet(OneToThreeDigits(), Then(Text("."), b), w, k) <==>
            k == DigitRun(w) && 1 <= k <= 3 && k < |w| && w[k] == '.' && Denotes(b, w[k + 1..])
  {
    MeetIs(OneToThreeDigits(), Then(Text("."), b), w, k);
    if k <= |w| {
      DigitGroup(w[..k]);
      DotAt(b, w, k);
      if k < |w| && w[k] == '.' && AllDigits(w[..k]) {
        RunIs(w, k);
      }
    }
  }

  /** A group, a dot, and what follows. */
  lemma GroupFirst(b: Regex, w: string)
    ensures Denotes(Then(OneToThreeDigits(), Then(Text("."), b)), w) <==>
              var d := DigitRun(w); 1 <= d <= 3 && d < |w| && w[d] == '.' && Denotes(b, w[d + 1..])
  {
    forall k: nat {:trigger Meet(OneToThreeDigits(), Then(Text("."), b), w, k)}
      ensures Meet(OneToThreeDigits(), Then(Text("."), b), w, k) <==>
              k == DigitRun(w) && 1 <= k <= 3 && k < |w| && w[k] == '.' && Denotes(b, w[k + 1..])
    {
      GroupMeets(b, w, k);
    }
    assert Meet(OneToThreeDigits(), Then(Text("."), b), w, DigitRun(w)) ==>
        Denotes(Then(OneToThreeDigits(), Then(Text("."), b)), w);
  }

  lemma {:induction false} GroupsAreTheirExpression(w: string, n: nat)
    requires n >= 1
    ensures DottedGroups(w, n) <==>
            Denotes(Then(Times(Then(OneToThreeDigits(), Text(".")), n - 1), OneToThreeDigits()), w)
    decreases n
  {
    var d := DigitRun(w);
    if n == 1 {
      OneFirst(Text(""), OneToThreeDigits(), 0, w);
      assert w[0..] == w;
      DigitGroup(w);
      if AllDigits(w) {
        assert w[..|w|] == w;
        RunIs(w, |w|);
      }
    } else {
      var g, more := Then(OneToThreeDigits(), Text(".")), Times(Then(OneToThreeDigits(), Text(".")), n - 2);
      Regroup(g, more, OneToThreeDigits(), w);
      Regroup(OneToThreeDigits(), Text("."), Then(more, OneToThreeDigits()), w);
      GroupFirst(Then(more, OneToThreeDigits()), w);
      if d < |w| {
        GroupsAreTheirExpression(w[d + 1..], n - 1);
      }
    }
  }

  function Expression(q: Pattern): Regex {
    match q
    case Uuid => UuidExpression()
    case BracketedIp6 => BracketedIp6Expression()
    case Ip4 => Ip4Expression()
    case Hex => HexExpression()
    case Number => NumberExpression()
  }

  /** Word boundaries aside, a pattern matches the texts of its expression, whatever the case of their letters. */
  lemma PatternsAreTheirExpressions(q: Pattern, w: string)
    ensures InLanguage(q, w) <==> Denotes(Expression(q), w)
  {
    match q
    case Uuid => UuidIsItsExpression(w);
    case BracketedIp6 => BracketedIp6IsItsExpression(w);
    case Ip4 => GroupsAreTheirExpression(w, 4);
    case Hex => HexIsItsExpression(w);
    case Number => NumberIsItsExpression(w);
  }
}
