/**
 Replacing every match of a pattern in a text, for any way of matching. A match may depend on whether a word
 character precedes the place it starts at and on whether one follows its end, as the `\b` of a regular
 expression does. The laws below say when a later replacement keeps what an earlier one achieved.
 */
module TextRewrite {

  predicate IsDigit(c: char) { '0' <= c <= '9' }

  predicate IsUpper(c: char) { 'A' <= c <= 'Z' }

  /** The word characters of `\b`. */
  predicate IsWord(c: char) { IsDigit(c) || 'a' <= c <= 'z' || IsUpper(c) || c == '_' }

  /** The class `\s`, which does not contain the vertical tab. */
  predicate IsSpace(c: char) { c == ' ' || c == '\t' || c == '\n' || c == '\r' || c == '\U{0C}' }

  /**
   The characters no match contains: neither a word character nor one of the marks inside addresses and identifiers.
   */
  predicate IsSeparator(c: char) { !IsWord(c) && c != '-' && c != '.' && c != ':' && c != '[' && c != ']' }

  predicate NoSeparator(s: string) { forall i :: 0 <= i < |s| ==> !IsSeparator(s[i]) }

  predicate WordAt(s: string, i: nat) { i < |s| && IsWord(s[i]) }

  /** From "does a word character precede" and a text: the length of the match at the head of the text, or 0. */
  type Matcher = (bool, string) -> nat

  function ReplaceAll(m: Matcher, token: string, afterWord: bool, s: string): string
    decreases |s|
  {
    if s == [] then []
    else
      var n := m(afterWord, s);
      if 0 < n <= |s| then token + ReplaceAll(m, token, IsWord(s[n - 1]), s[n..])
      else [s[0]] + ReplaceAll(m, token, IsWord(s[0]), s[1..])
  }

  /** No match starts anywhere in `s`. */
  ghost predicate Free(m: Matcher, afterWord: bool, s: string)
    decreases |s|
  {
    s == [] || (m(afterWord, s) == 0 && Free(m, IsWord(s[0]), s[1..]))
  }

  // ----- what the laws ask of a matcher

  /** A match lies within the text, and no word character touches either end of it from outside. */
  ghost predicate CleanEdges(m: Matcher, afterWord: bool, s: string) {
    var n := m(afterWord, s);
    n <= |s| && (n > 0 ==> (IsWord(s[0]) ==> !afterWord) && (IsWord(s[n - 1]) ==> !WordAt(s, n)))
  }

  /** A match contains no separator, and does not need a word boundary before a character that is none. */
  ghost predicate Contained(m: Matcher, afterWord: bool, s: string) {
    var n := m(afterWord, s);
    n <= |s| && NoSeparator(s[..n]) && (n > 0 && !WordAt(s, 0) ==> m(true, s) > 0)
  }

  /** A match depends only on its own text and on whether a word character follows it. */
  ghost predicate Transfers(m: Matcher, afterWord: bool, s: string, t: string) {
    var n := m(afterWord, t);
    0 < n <= |s| && n <= |t| && s[..n] == t[..n] && (IsWord(s[n - 1]) ==> WordAt(s, n) == WordAt(t, n))
    ==> m(afterWord, s) > 0
  }

  ghost predicate Lawful(m: Matcher) {
    forall afterWord, s :: CleanEdges(m, afterWord, s)
  }

  ghost predicate Local(m: Matcher) {
    && (forall afterWord, s :: Contained(m, afterWord, s))
    && (forall afterWord, s, t :: Transfers(m, afterWord, s, t))
  }

  /** A token that no match can start in, and that is no word character at either end. */
  ghost predicate Inert(token: string, m: Matcher) {
    && token != [] && IsSeparator(token[0]) && !IsWord(token[|token| - 1])
    && forall j, afterWord, rest ::
         0 <= j < |token| && (j > 0 ==> afterWord == IsWord(token[j - 1])) ==> m(afterWord, token[j..] + rest) == 0
  }

  // ----- laws

  /** One step of a pass: the token for a match, or the first character as it is, then the rest. */
  lemma OneStep(m: Matcher, token: string, afterWord: bool, s: string, k: nat, head: string)
    requires s != [] && m(afterWord, s) <= |s|
    requires if m(afterWord, s) > 0 then k == m(afterWord, s) && head == token else k == 1 && head == [s[0]]
    ensures ReplaceAll(m, token, afterWord, s) == head + ReplaceAll(m, token, IsWord(s[k - 1]), s[k..])
  {
  }

  lemma {:induction false} FreeSuffix(m: Matcher, afterWord: bool, s: string, n: nat)
    requires Free(m, afterWord, s) && 1 <= n <= |s|
    ensures Free(m, IsWord(s[n - 1]), s[n..])
    decreases n
  {
    if n > 1 {
      FreeSuffix(m, IsWord(s[0]), s[1..], n - 1);
      assert s[1..][n - 1..] == s[n..];
    }
  }

  lemma FirstOfPrefix(r: string, n: nat)
    requires n <= |r| && NoSeparator(r[..n])
    ensures n > 0 ==> !IsSeparator(r[0])
  {
    assert n > 0 ==> r[..n][0] == r[0];
  }

  lemma RestOfPrefix(c: char, r: string, rest: string, n: nat)
    requires 0 < n <= |r| && r == [c] + rest && NoSeparator(r[..n])
    ensures n - 1 <= |rest| && NoSeparator(rest[..n - 1])
  {
    assert r[..n] == [c] + rest[..n - 1];
    var whole, part := r[..n], rest[..n - 1];
    forall i | 0 <= i < |part| ensures !IsSeparator(part[i]) {
      assert part[i] == whole[i + 1];
    }
  }

  /** Where a token is put, the output has a separator, and the input no word character if one came before. */
  lemma CommonPrefixAtMatch(p: Matcher, token: string, afterWord: bool, s: string, n: nat)
    requires Lawful(p) && token != [] && IsSeparator(token[0]) && s != [] && p(afterWord, s) > 0
    requires var r := ReplaceAll(p, token, afterWord, s); n <= |r| && NoSeparator(r[..n])
    ensures n == 0 && !WordAt(ReplaceAll(p, token, afterWord, s), 0) && (afterWord ==> !WordAt(s, 0))
  {
    var k := p(afterWord, s);
    assert CleanEdges(p, afterWord, s);
    var r := ReplaceAll(p, token, afterWord, s);
    FirstOfPrefix(r, n);
    OneStep(p, token, afterWord, s, k, token);
    assert r[0] == token[0];
  }

  lemma CopiedPrefix(s: string, r: string, rest: string, n: nat)
    requires s != [] && r == [s[0]] + rest && 0 < n <= |r| && n <= |s| && s[1..][..n - 1] == rest[..n - 1]
    requires (if n > 1 then IsWord(s[1..][n - 2]) else IsWord(s[0])) ==> WordAt(s[1..], n - 1) == WordAt(rest, n - 1)
    ensures s[..n] == r[..n] && (IsWord(s[n - 1]) ==> WordAt(s, n) == WordAt(r, n))
  {
    assert s[..n] == [s[0]] + s[1..][..n - 1];
  }

  /** A separator-free stretch at the head of the output was there in the input, with the same right context. */
  lemma {:induction false} CommonPrefix(p: Matcher, token: string, afterWord: bool, s: string, n: nat)
    requires Lawful(p) && token != [] && IsSeparator(token[0])
    requires var r := ReplaceAll(p, token, afterWord, s); n <= |r| && NoSeparator(r[..n])
    ensures n <= |s| && s[..n] == ReplaceAll(p, token, afterWord, s)[..n]
    ensures (if n > 0 then IsWord(s[n - 1]) else afterWord) ==>
              WordAt(s, n) == WordAt(ReplaceAll(p, token, afterWord, s), n)
    decreases |s|
  {
    if s == [] {
      return;
    }
    if p(afterWord, s) > 0 {
      CommonPrefixAtMatch(p, token, afterWord, s, n);
      return;
    }
    var r, rest := ReplaceAll(p, token, afterWord, s), ReplaceAll(p, token, IsWord(s[0]), s[1..]);
    OneStep(p, token, afterWord, s, 1, [s[0]]);
    if n > 0 {
      RestOfPrefix(s[0], r, rest, n);
      CommonPrefix(p, token, IsWord(s[0]), s[1..], n - 1);
      CopiedPrefix(s, r, rest, n);
    }
  }

  lemma {:induction false} TokenStaysFree(m: Matcher, token: string, j: nat, afterWord: bool, rest: string)
    requires Inert(token, m) && Free(m, false, rest) && j <= |token|
    requires 0 < j <= |token| ==> afterWord == IsWord(token[j - 1])
    ensures Free(m, afterWord, token[j..] + rest)
    decreases |token| - j
  {
    var s := token[j..] + rest;
    if j == |token| {
      assert s == rest;
    } else {
      assert s[0] == token[j] && s[1..] == token[j + 1..] + rest;
      TokenStaysFree(m, token, j + 1, IsWord(token[j]), rest);
    }
  }

  /** What follows a match is as free after the token as it was after the match itself. */
  lemma FreeAfterToken(p: Matcher, token: string, m: Matcher, afterWord: bool, u: string)
    requires Lawful(p) && Local(m) && token != [] && IsSeparator(token[0])
    requires Free(m, afterWord, ReplaceAll(p, token, afterWord, u)) && (afterWord ==> !WordAt(u, 0))
    ensures Free(m, false, ReplaceAll(p, token, afterWord, u))
  {
    var rest := ReplaceAll(p, token, afterWord, u);
    if afterWord && rest != [] {
      CommonPrefix(p, token, true, u, 0);
      assert Contained(m, false, rest);
    }
  }

  /** A character a pass copies starts no match in its output if it started none in its input. */
  lemma CopiedStaysFree(p: Matcher, token: string, m: Matcher, afterWord: bool, s: string)
    requires Lawful(p) && Local(m) && token != [] && IsSeparator(token[0])
    requires s != [] && p(afterWord, s) == 0 && m(afterWord, s) == 0
    ensures m(afterWord, ReplaceAll(p, token, afterWord, s)) == 0
  {
    var t := ReplaceAll(p, token, afterWord, s);
    var k := m(afterWord, t);
    assert Contained(m, afterWord, t);
    CommonPrefix(p, token, afterWord, s, k);
    assert Transfers(m, afterWord, s, t);
  }

  lemma MatchStaysFree(p: Matcher, token: string, m: Matcher, afterWord: bool, s: string)
    requires Lawful(p) && Local(m) && Inert(token, m) && s != [] && 0 < p(afterWord, s) <= |s|
    requires var n := p(afterWord, s);
             Free(m, IsWord(s[n - 1]), ReplaceAll(p, token, IsWord(s[n - 1]), s[n..]))
    ensures Free(m, afterWord, ReplaceAll(p, token, afterWord, s))
  {
    var n := p(afterWord, s);
    assert CleanEdges(p, afterWord, s);
    FreeAfterToken(p, token, m, IsWord(s[n - 1]), s[n..]);
    var rest := ReplaceAll(p, token, IsWord(s[n - 1]), s[n..]);
    TokenStaysFree(m, token, 0, afterWord, rest);
    OneStep(p, token, afterWord, s, n, token);
    assert token[0..] == token;
  }

  /** A pass clears its own pattern and keeps a text free of every pattern it was free of. */
  lemma {:induction false} PassKeepsFree(p: Matcher, token: string, m: Matcher, afterWord: bool, s: string)
    requires Lawful(p) && Local(m) && Inert(token, m)
    requires p == m || Free(m, afterWord, s)
    ensures Free(m, afterWord, ReplaceAll(p, token, afterWord, s))
    decreases |s|
  {
    if s == [] {
      return;
    }
    var n := p(afterWord, s);
    assert CleanEdges(p, afterWord, s);
    if n > 0 {
      if p != m {
        FreeSuffix(m, afterWord, s, n);
      }
      PassKeepsFree(p, token, m, IsWord(s[n - 1]), s[n..]);
      MatchStaysFree(p, token, m, afterWord, s);
    } else {
      CopiedStaysFree(p, token, m, afterWord, s);
      PassKeepsFree(p, token, m, IsWord(s[0]), s[1..]);
      OneStep(p, token, afterWord, s, 1, [s[0]]);
      var t := ReplaceAll(p, token, afterWord, s);
      assert t[0] == s[0] && t[1..] == ReplaceAll(p, token, IsWord(s[0]), s[1..]);
    }
  }

  lemma {:induction false} FreeUnchanged(m: Matcher, token: string, afterWord: bool, s: string)
    requires Free(m, afterWord, s)
    ensures ReplaceAll(m, token, afterWord, s) == s
    decreases |s|
  {
    if s == [] {
    } else {
      FreeUnchanged(m, token, IsWord(s[0]), s[1..]);
    }
  }

  /** Dropping a last character that is no word character brings no match. */
  lemma {:induction false} FreeInit(m: Matcher, afterWord: bool, s: string)
    requires Local(m) && s != [] && !IsWord(s[|s| - 1]) && Free(m, afterWord, s)
    ensures Free(m, afterWord, s[..|s| - 1])
    decreases |s|
  {
    var t := s[..|s| - 1];
    if t != [] {
      assert t[1..] == s[1..][..|s[1..]| - 1];
      FreeInit(m, IsWord(s[0]), s[1..]);
      var n := m(afterWord, t);
      assert Contained(m, afterWord, t) && t[..n] == s[..n];
      assert Transfers(m, afterWord, s, t);
    }
  }

  predicate LowerCase(s: string) { forall i :: 0 <= i < |s| ==> !IsUpper(s[i]) }

  lemma {:induction false} PassKeepsLower(m: Matcher, token: string, afterWord: bool, s: string)
    requires LowerCase(token) && LowerCase(s)
    ensures LowerCase(ReplaceAll(m, token, afterWord, s))
    decreases |s|
  {
    if s == [] {
    } else {
      var n := m(afterWord, s);
      if 0 < n <= |s| {
        PassKeepsLower(m, token, IsWord(s[n - 1]), s[n..]);
      } else {
        PassKeepsLower(m, token, IsWord(s[0]), s[1..]);
      }
    }
  }

  // ----- word by word

  ghost predicate StartsApart(u: string) { u != [] ==> IsSeparator(u[0]) }

  /** A match does not depend on what follows a separator behind it, and none starts at a separator. */
  ghost predicate Cut(m: Matcher, afterWord: bool, a: string, u: string) {
    StartsApart(u) ==> m(afterWord, a + u) == if a == [] then 0 else m(afterWord, a)
  }

  ghost predicate WordByWord(m: Matcher) {
    Lawful(m) && forall afterWord, a, u :: Cut(m, afterWord, a, u)
  }

  lemma WholeMatch(m: Matcher, token: string, afterWord: bool, s: string)
    requires s != [] && m(afterWord, s) == |s|
    ensures ReplaceAll(m, token, afterWord, s) == token
  {
    OneStep(m, token, afterWord, s, |s|, token);
    assert s[|s|..] == [];
  }

  lemma SeparatorIsKept(m: Matcher, token: string, afterWord: bool, u: string)
    requires WordByWord(m) && u != [] && IsSeparator(u[0])
    ensures ReplaceAll(m, token, afterWord, u) == [u[0]] + ReplaceAll(m, token, false, u[1..])
  {
    assert Cut(m, afterWord, [], u) && [] + u == u;
  }

  lemma Prepend(head: string, x: string, y: string)
    ensures head + (x + y) == (head + x) + y
  {
  }

  lemma NothingBefore(m: Matcher, token: string, afterWord: bool, u: string)
    requires WordByWord(m) && StartsApart(u)
    ensures ReplaceAll(m, token, afterWord, [] + u) == ReplaceAll(m, token, false, u)
  {
    assert [] + u == u;
    if u != [] {
      SeparatorIsKept(m, token, afterWord, u);
      SeparatorIsKept(m, token, false, u);
    }
  }

  lemma OneStepSplits(m: Matcher, token: string, afterWord: bool, a: string, u: string, k: nat, head: string)
    requires a != [] && m(afterWord, a) == m(afterWord, a + u) <= |a|
    requires if m(afterWord, a) > 0 then k == m(afterWord, a) && head == token else k == 1 && head == [a[0]]
    requires ReplaceAll(m, token, IsWord(a[k - 1]), a[k..] + u)
          == ReplaceAll(m, token, IsWord(a[k - 1]), a[k..]) + ReplaceAll(m, token, false, u)
    ensures ReplaceAll(m, token, afterWord, a + u)
         == ReplaceAll(m, token, afterWord, a) + ReplaceAll(m, token, false, u)
  {
    var s := a + u;
    assert s[k..] == a[k..] + u && s[k - 1] == a[k - 1] && s[0] == a[0];
    OneStep(m, token, afterWord, a, k, head);
    OneStep(m, token, afterWord, s, k, head);
    Prepend(head, ReplaceAll(m, token, IsWord(a[k - 1]), a[k..]), ReplaceAll(m, token, false, u));
  }

  /** What stands before a separator and what stands from it on are replaced independently. */
  lemma {:induction false} SplitsAtSeparator(m: Matcher, token: string, afterWord: bool, a: string, u: string)
    requires WordByWord(m) && StartsApart(u)
    ensures ReplaceAll(m, token, afterWord, a + u)
         == ReplaceAll(m, token, afterWord, a) + ReplaceAll(m, token, false, u)
    decreases |a|
  {
    if a == [] {
      NothingBefore(m, token, afterWord, u);
    } else {
      assert Cut(m, afterWord, a, u) && CleanEdges(m, afterWord, a);
      var n := m(afterWord, a);
      var k := if n > 0 then n else 1;
      SplitsAtSeparator(m, token, IsWord(a[k - 1]), a[k..], u);
      OneStepSplits(m, token, afterWord, a, u, k, if n > 0 then token else [a[0]]);
    }
  }

  /** The text before a value, up to its last separator, and the text behind it, from its first one. */
  ghost predicate Around(a: string, b: string) {
    (a != [] ==> IsSeparator(a[|a| - 1])) && StartsApart(b)
  }

  /** A rewriting that works on the stretches before a separator and from it on alike, and keeps the separator. */
  ghost predicate Splits(f: string -> string, a: string, u: string) {
    StartsApart(u) ==> f(a + u) == f(a) + f(u)
  }

  ghost predicate Keeps(f: string -> string, c: char, u: string) {
    IsSeparator(c) ==> f([c] + u) == [c] + f(u)
  }

  ghost predicate Separates(f: string -> string) {
    f([]) == [] && (forall a, u :: Splits(f, a, u)) && (forall c, u :: Keeps(f, c, u))
  }

  lemma RewrittenAround(f: string -> string, a: string, w: string, b: string)
    requires Separates(f) && Around(a, b)
    ensures f(a + (w + b)) == f(a) + (f(w) + f(b))
  {
    var u := w + b;
    assert Splits(f, w, b);
    if a == [] {
      assert [] + u == u && [] + f(u) == f(u);
    } else {
      var before, c := a[..|a| - 1], a[|a| - 1];
      assert a == before + ([c] + []) && a + u == before + ([c] + u);
      assert Splits(f, before, [c] + u) && Splits(f, before, [c] + []);
      assert Keeps(f, c, u) && Keeps(f, c, []);
      Prepend(f(before), [c], f(u));
    }
  }

  // ----- replacing the value of a field

  /** Where the value of a field at the head of a text begins, and its length, or 0 if no such field is there. */
  type FieldFinder = string -> (nat, nat)

  /** What a pass makes of a field: its name stays, and so does the character that closes it. */
  function FieldHead(token: string, name: string, closing: char): (head: string)
    ensures head != [] && head[|head| - 1] == closing
    ensures name != [] ==> head[0] == name[0]
  {
    name + token + [closing]
  }

  /** Replaces field values; the field name before a value and the character that closes it stay. */
  function ReplaceFields(find: FieldFinder, token: string, s: string): string
    decreases |s|
  {
    if s == [] then []
    else
      var v, end := find(s).0, find(s).0 + find(s).1;
      if v < end < |s| then FieldHead(token, s[..v], s[end]) + ReplaceFields(find, token, s[end + 1..])
      else [s[0]] + ReplaceFields(find, token, s[1..])
  }

  lemma {:induction false} FieldsKeepLower(find: FieldFinder, token: string, s: string)
    requires LowerCase(token) && LowerCase(s)
    ensures LowerCase(ReplaceFields(find, token, s))
    decreases |s|
  {
    if s == [] {
    } else {
      var (v, n) := find(s);
      if n > 0 && v + n < |s| {
        FieldsKeepLower(find, token, s[v + n + 1..]);
      } else {
        FieldsKeepLower(find, token, s[1..]);
      }
    }
  }

  // ----- fields on one side of a place

  /** The same field within `a`, or none in either case. */
  ghost predicate SameField(find: FieldFinder, a: string, s: string) {
    if find(a).1 > 0 then find(a).0 + find(a).1 < |a| && find(s) == find(a) else find(s).1 == 0
  }

  /** One step of a pass at a field: what comes up to its end, with its value replaced, then the rest. */
  lemma StepAtField(find: FieldFinder, token: string, s: string, v: nat, n: nat, head: string, rest: string)
    requires find(s) == (v, n) && n > 0 && v + n < |s|
    requires head == FieldHead(token, s[..v], s[v + n]) && rest == s[v + n + 1..]
    ensures ReplaceFields(find, token, s) == head + ReplaceFields(find, token, rest)
  {
    var r := ReplaceFields(find, token, rest);
    assert ReplaceFields(find, token, s) == FieldHead(token, s[..v], s[v + n]) + r;
  }

  /** Anywhere else the first character is copied. */
  lemma StepAtChar(find: FieldFinder, token: string, s: string)
    requires s != [] && find(s).1 == 0
    ensures ReplaceFields(find, token, s) == [s[0]] + ReplaceFields(find, token, s[1..])
  {
  }

  lemma PartsOf(name: string, time: string, closing: string, b: string)
    requires |closing| == 1
    ensures var s, end := name + (time + (closing + b)), |name| + |time|;
            end < |s| && s[..|name|] == name && s[end] == closing[0] && s[end + 1..] == b
  {
  }

  lemma Appended(a: string, u: string, v: nat, k: nat)
    requires v < k <= |a|
    ensures var s := a + u; s[k..] == a[k..] + u && s[..v] == a[..v] && s[k - 1] == a[k - 1]
  {
  }

  lemma FieldAlike(find: FieldFinder, token: string, a: string, u: string) returns (k: nat, head: string)
    requires find(a).1 > 0 && find(a).0 + find(a).1 < |a| && find(a + u) == find(a)
    ensures 1 <= k <= |a|
    ensures ReplaceFields(find, token, a) == head + ReplaceFields(find, token, a[k..])
    ensures ReplaceFields(find, token, a + u) == head + ReplaceFields(find, token, a[k..] + u)
  {
    var v, n := find(a).0, find(a).1;
    k, head := v + n + 1, FieldHead(token, a[..v], a[v + n]);
    Appended(a, u, v, k);
    StepAtField(find, token, a, v, n, head, a[k..]);
    StepAtField(find, token, a + u, v, n, head, a[k..] + u);
  }

  lemma CharAlike(find: FieldFinder, token: string, a: string, u: string)
    requires a != [] && find(a).1 == 0 && find(a + u).1 == 0
    ensures ReplaceFields(find, token, a) == [a[0]] + ReplaceFields(find, token, a[1..])
    ensures ReplaceFields(find, token, a + u) == [a[0]] + ReplaceFields(find, token, a[1..] + u)
  {
    var s := a + u;
    assert s[1..] == a[1..] + u && s[0] == a[0];
    StepAtChar(find, token, a);
    StepAtChar(find, token, s);
  }

  lemma StepsAlike(find: FieldFinder, token: string, a: string, u: string) returns (k: nat, head: string)
    requires a != [] && SameField(find, a, a + u)
    ensures 1 <= k <= |a|
    ensures ReplaceFields(find, token, a) == head + ReplaceFields(find, token, a[k..])
    ensures ReplaceFields(find, token, a + u) == head + ReplaceFields(find, token, a[k..] + u)
  {
    if find(a).1 > 0 {
      k, head := FieldAlike(find, token, a, u);
    } else {
      k, head := 1, [a[0]];
      CharAlike(find, token, a, u);
    }
  }

  /** Where no field reaches past the end of `a`, what comes up to there and what follows are replaced independently. */
  lemma {:induction false} FieldsSplit(find: FieldFinder, token: string, a: string, u: string)
    requires forall i :: 0 <= i < |a| ==> SameField(find, a[i..], a[i..] + u)
    ensures ReplaceFields(find, token, a + u) == ReplaceFields(find, token, a) + ReplaceFields(find, token, u)
    decreases |a|
  {
    if a == [] {
      assert a + u == u;
    } else {
      assert a[0..] == a;
      var k, head := StepsAlike(find, token, a, u);
      assert forall i :: 0 <= i < |a| - k ==> a[k..][i..] == a[k + i..];
      FieldsSplit(find, token, a[k..], u);
      Prepend(head, ReplaceFields(find, token, a[k..]), ReplaceFields(find, token, u));
    }
  }

  lemma {:induction false} NoFieldsUnchanged(find: FieldFinder, token: string, s: string)
    requires forall i :: 0 <= i < |s| ==> find(s[i..]).1 == 0
    ensures ReplaceFields(find, token, s) == s
    decreases |s|
  {
    if s == [] {
    } else {
      assert s[0..] == s;
      assert forall i :: 0 <= i < |s| - 1 ==> s[1..][i..] == s[i + 1..];
      NoFieldsUnchanged(find, token, s[1..]);
    }
  }

  /** A field begins with its name and ends within the text. */
  ghost predicate HasNames(find: FieldFinder) {
    forall s :: find(s).1 > 0 ==> find(s).0 > 0 && find(s).0 + find(s).1 < |s|
  }

  ghost predicate SameEnds(s: string, r: string) {
    s != [] && r != [] && r[0] == s[0] && r[|r| - 1] == s[|s| - 1]
  }

  lemma EndsOfConcatenation(s: string, k: nat, head: string, rest: string)
    requires 1 <= k <= |s| && head != [] && head[0] == s[0] && head[|head| - 1] == s[k - 1]
    requires if s[k..] == [] then rest == [] else SameEnds(s[k..], rest)
    ensures SameEnds(s, head + rest)
  {
  }

  lemma HeadOf(find: FieldFinder, token: string, s: string) returns (k: nat, head: string)
    requires HasNames(find) && s != []
    ensures 1 <= k <= |s| && head != [] && head[0] == s[0] && head[|head| - 1] == s[k - 1]
    ensures ReplaceFields(find, token, s) == head + ReplaceFields(find, token, s[k..])
  {
    var v, n := find(s).0, find(s).1;
    if n > 0 {
      k, head := v + n + 1, FieldHead(token, s[..v], s[v + n]);
      StepAtField(find, token, s, v, n, head, s[k..]);
    } else {
      k, head := 1, [s[0]];
      StepAtChar(find, token, s);
    }
  }

  /** Replacing field values keeps the first and the last character of a text. */
  lemma {:induction false} FieldsKeepEnds(find: FieldFinder, token: string, s: string)
    requires HasNames(find) && s != []
    ensures SameEnds(s, ReplaceFields(find, token, s))
    decreases |s|
  {
    var k, head := HeadOf(find, token, s);
    var tail := s[k..];
    if tail != [] {
      FieldsKeepEnds(find, token, tail);
    }
    EndsOfConcatenation(s, k, head, ReplaceFields(find, token, tail));
  }
}
