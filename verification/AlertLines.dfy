/**
 Which lines have one normal form (alert_dedup.go): a line that differs from another in one word looks like it if and
 only if the two words are masked alike. Blanks and the ends of a line are handled around a word as if it were not
 there.
 */
module AlertLines {
  import opened TextRewrite
  import opened AlertText
  import opened AlertTimestamps
  import opened AlertWords

  predicate IsUntrimmed(s: string) { forall i :: 0 <= i < |s| ==> !IsTrimmed(s[i]) }

  /** Text that neither collapsing nor trimming touches. */
  predicate IsSolid(s: string) { s != [] && IsUntrimmed(s) }

  // ----- a masked word is solid

  lemma TokenIsSolid(q: Pattern)
    ensures IsSolid(Token(q))
  {
  }

  lemma SolidHead(head: string, rest: string)
    requires IsSolid(head) && IsUntrimmed(rest)
    ensures IsSolid(head + rest)
  {
  }

  lemma {:induction false} PassKeepsSolid(q: Pattern, afterWord: bool, s: string)
    requires IsUntrimmed(s)
    ensures var r := ReplaceAll(Finder(q), Token(q), afterWord, s); if s == [] then r == [] else IsSolid(r)
    decreases |s|
  {
    if s == [] {
    } else {
      FinderLaws(q);
      assert CleanEdges(Finder(q), afterWord, s);
      TokenIsSolid(q);
      var n := Finder(q)(afterWord, s);
      var k, head := if n > 0 then n else 1, if n > 0 then Token(q) else [s[0]];
      OneStep(Finder(q), Token(q), afterWord, s, k, head);
      PassKeepsSolid(q, IsWord(s[k - 1]), s[k..]);
      SolidHead(head, ReplaceAll(Finder(q), Token(q), IsWord(s[k - 1]), s[k..]));
    }
  }

  lemma ReplaceKeepsSolid(q: Pattern, s: string)
    requires IsSolid(s)
    ensures IsSolid(Replace(q, s))
  {
    PassKeepsSolid(q, false, s);
  }

  lemma MaskedIsSolid(w: string)
    requires IsPlainWord(ToLower(w))
    ensures IsSolid(Masked(w))
  {
    var t := ToLower(w);
    ReplaceKeepsSolid(Uuid, t);
    ReplaceKeepsSolid(BracketedIp6, Replace(Uuid, t));
    ReplaceKeepsSolid(Ip4, Replace(BracketedIp6, Replace(Uuid, t)));
    ReplaceKeepsSolid(Hex, Replace(Ip4, Replace(BracketedIp6, Replace(Uuid, t))));
    ReplaceKeepsSolid(Number, Replace(Hex, Replace(Ip4, Replace(BracketedIp6, Replace(Uuid, t)))));
  }

  // ----- blanks and ends around solid text

  function Collapse(afterWord: bool, s: string): string { ReplaceAll(Blanks(), " ", afterWord, s) }

  lemma {:induction false} ContextIsIgnored(a: bool, b: bool, s: string)
    ensures Collapse(a, s) == Collapse(b, s)
    decreases |s|
  {
    if s == [] {
    } else {
      var n := SpaceRun(s);
      var k, head := if n > 0 then n else 1, if n > 0 then " " else [s[0]];
      OneStep(Blanks(), " ", a, s, k, head);
      OneStep(Blanks(), " ", b, s, k, head);
    }
  }

  lemma {:induction false} RunEndsBefore(x: string, u: string)
    requires u != [] ==> !IsSpace(u[0])
    ensures SpaceRun(x + u) == SpaceRun(x)
  {
    if x == [] {
      assert x + u == u;
    } else {
      assert (x + u)[1..] == x[1..] + u;
      RunEndsBefore(x[1..], u);
    }
  }

  lemma {:induction false} CollapseSplits(afterWord: bool, x: string, u: string)
    requires u != [] ==> !IsSpace(u[0])
    ensures Collapse(afterWord, x + u) == Collapse(afterWord, x) + Collapse(false, u)
    decreases |x|
  {
    if x == [] {
      assert x + u == u;
      ContextIsIgnored(afterWord, false, u);
    } else {
      RunEndsBefore(x, u);
      var n := SpaceRun(x);
      var k := if n > 0 then n else 1;
      CollapseSplits(IsWord(x[k - 1]), x[k..], u);
      OneStepSplits(Blanks(), " ", afterWord, x, u, k, if n > 0 then " " else [x[0]]);
    }
  }

  lemma {:induction false} SolidIsCopied(afterWord: bool, m: string, y: string)
    requires IsUntrimmed(m)
    ensures Collapse(afterWord, m + y) == m + Collapse(false, y)
    decreases |m|
  {
    if m == [] {
      assert m + y == y;
      ContextIsIgnored(afterWord, false, y);
    } else {
      var s := m + y;
      assert s[0] == m[0] && s[1..] == m[1..] + y;
      OneStep(Blanks(), " ", afterWord, s, 1, [s[0]]);
      SolidIsCopied(IsWord(m[0]), m[1..], y);
      Prepend([m[0]], m[1..], Collapse(false, y));
      assert [m[0]] + m[1..] == m;
    }
  }

  lemma {:induction false} TrimLeftStops(x: string, u: string)
    requires u != [] && !IsTrimmed(u[0])
    ensures TrimLeft(x + u) == TrimLeft(x) + u
  {
    if x == [] {
      assert x + u == u;
    } else {
      assert (x + u)[0] == x[0] && (x + u)[1..] == x[1..] + u;
      TrimLeftStops(x[1..], u);
    }
  }

  lemma {:induction false} TrimRightStops(u: string, y: string)
    requires u != [] && !IsTrimmed(u[|u| - 1])
    ensures TrimRight(u + y) == u + TrimRight(y)
    decreases |y|
  {
    if y == [] {
      assert u + y == u;
    } else {
      var s := u + y;
      assert s[|s| - 1] == y[|y| - 1] && s[..|s| - 1] == u + y[..|y| - 1];
      TrimRightStops(u, y[..|y| - 1]);
    }
  }

  predicate AllBlank(s: string) { forall i :: 0 <= i < |s| ==> IsSpace(s[i]) }

  /** What is left of blanks. */
  function Gap(x: string): string { if x == "" then "" else " " }

  lemma {:induction false} BlankRun(x: string, u: string)
    requires AllBlank(x) && (u != [] ==> !IsSpace(u[0]))
    ensures SpaceRun(x + u) == |x|
  {
    if x == [] {
      assert x + u == u;
    } else {
      assert (x + u)[1..] == x[1..] + u;
      BlankRun(x[1..], u);
    }
  }

  lemma BlanksCollapse(x: string, u: string)
    requires AllBlank(x) && u != [] && !IsSpace(u[0])
    ensures Collapse(false, x + u) == Gap(x) + Collapse(false, u)
  {
    if x == [] {
      assert x + u == u;
    } else {
      BlankRun(x, u);
      OneStep(Blanks(), " ", false, x + u, |x|, " ");
      assert (x + u)[|x|..] == u;
      ContextIsIgnored(IsWord((x + u)[|x| - 1]), false, u);
    }
  }

  // ----- lines

  /** What comes before a word, and what comes behind it, once normalised. */
  function Front(a: string): string { TrimLeft(CollapseSpace(ReplacePatterns(Prepared(a)))) }

  function Back(b: string): string { TrimRight(CollapseSpace(ReplacePatterns(Prepared(b)))) }

  lemma CollapsedAndTrimmed(x: string, m: string, y: string)
    requires IsSolid(m)
    ensures TrimRight(TrimLeft(CollapseSpace(x + (m + y))))
            == TrimLeft(CollapseSpace(x)) + (m + TrimRight(CollapseSpace(y)))
  {
    var cx, cy := CollapseSpace(x), CollapseSpace(y);
    assert (m + y)[0] == m[0];
    CollapseSplits(false, x, m + y);
    SolidIsCopied(false, m, y);
    assert CollapseSpace(x + (m + y)) == cx + (m + cy);
    assert (m + cy)[0] == m[0];
    TrimLeftStops(cx, m + cy);
    Prepend(TrimLeft(cx), m, cy);
    TrimRightStops(TrimLeft(cx) + m, cy);
    Prepend(TrimLeft(cx), m, TrimRight(cy));
  }

  /** A line is normalised word by word. */
  lemma NormalizedLine(a: string, w: string, b: string)
    requires Around(a, b) && IsPlainWord(ToLower(w))
    ensures Normalize(a + (w + b)) == Front(a) + (Masked(w) + Back(b))
  {
    MaskedLine(a, w, b);
    MaskedIsSolid(w);
    CollapsedAndTrimmed(ReplacePatterns(Prepared(a)), Masked(w), ReplacePatterns(Prepared(b)));
  }

  lemma Cancel(x: string, m: string, n: string, y: string)
    requires x + (m + y) == x + (n + y)
    ensures m == n
  {
    var l, r := x + (m + y), x + (n + y);
    assert |m| == |n|;
    assert forall i :: 0 <= i < |m| ==> l[|x| + i] == m[i] && r[|x| + i] == n[i];
  }

  /** Two lines that differ in one word have one normal form if and only if the two words are masked alike. */
  lemma LinesLookAlikeExactly(a: string, v: string, w: string, b: string)
    requires Around(a, b) && IsPlainWord(ToLower(v)) && IsPlainWord(ToLower(w))
    ensures Normalize(a + (v + b)) == Normalize(a + (w + b)) <==> Masked(v) == Masked(w)
  {
    NormalizedLine(a, v, b);
    NormalizedLine(a, w, b);
    if Normalize(a + (v + b)) == Normalize(a + (w + b)) {
      Cancel(Front(a), Masked(v), Masked(w), Back(b));
    }
  }

  // ----- short numbers

  lemma {:induction false} NoNumberIn(w: string, afterWord: bool)
    requires |w| < 4
    ensures Free(Finder(Number), afterWord, w)
  {
    if w == [] {
    } else {
      NoNumberIn(w[1..], IsWord(w[0]));
    }
  }

  lemma ShortNumberIsKept(w: string)
    requires AllDigits(w) && 0 < |w| < 4
    ensures IsPlainWord(ToLower(w)) && Masked(w) == w
  {
    assert ToLower(w) == w;
    assert w[0] != ':' && "time"[0] == "timestamp"[0] == "ts"[0] == 't';
    forall q ensures Replace(q, w) == w {
      NoNumberIn(w, false);
      if q != Number {
        UnmarkedIsFree(q, false, w);
      }
      FreeUnchanged(Finder(q), Token(q), false, w);
    }
  }

  /** Numbers of up to three digits, such as status codes, keep lines apart. */
  lemma ShortNumbersStayDistinct(a: string, v: string, w: string, b: string)
    requires Around(a, b) && AllDigits(v) && AllDigits(w) && 0 < |v| < 4 && 0 < |w| < 4
    ensures Normalize(a + (v + b)) == Normalize(a + (w + b)) <==> v == w
  {
    ShortNumberIsKept(v);
    ShortNumberIsKept(w);
    LinesLookAlikeExactly(a, v, w, b);
  }
}
