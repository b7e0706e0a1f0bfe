/**
 Where the timestamp fields of a text are (alert_dedup.go): whether a field is found depends on nothing behind it, and
 no value that the later passes replace lies in one, so timestamps are replaced on each side of such a value by
 themselves.
 */
module AlertTimestamps {
  import opened TextRewrite
  import opened AlertText

  // ----- a field depends on nothing behind it

  lemma {:induction false} SpaceRunOfPrefix(s: string, n: nat)
    requires n <= |s|
    ensures SpaceRun(s[..n]) == if SpaceRun(s) <= n then SpaceRun(s) else n
  {
    if n > 0 {
      assert s[..n][1..] == s[1..][..n - 1];
      SpaceRunOfPrefix(s[1..], n - 1);
    }
  }

  lemma FractionOfPrefix(s: string, n: nat)
    requires n <= |s|
    ensures FractionLength(s) < n ==> FractionLength(s[..n]) == FractionLength(s)
    ensures FractionLength(s[..n]) + 1 < n ==> FractionLength(s[..n]) == FractionLength(s)
  {
    if n > 0 {
      assert s[..n][1..] == s[1..][..n - 1];
      DigitRunOfPrefix(s[1..], n - 1);
    }
  }

  lemma ZoneOfPrefix(s: string, n: nat)
    requires n <= |s|
    ensures ZoneLength(s[..n]) > 0 ==> ZoneLength(s[..n]) == ZoneLength(s)
    ensures ZoneLength(s) <= n ==> ZoneLength(s[..n]) == ZoneLength(s)
  {
    if n >= 6 {
      assert s[..n][1..3] == s[1..3] && s[..n][4..6] == s[4..6];
    }
  }

  lemma EndOfPrefix(s: string, f: nat, n: nat)
    requires f <= n <= |s|
    ensures ZoneLength(s[..n][f..]) > 0 ==> ZoneLength(s[..n][f..]) == ZoneLength(s[f..])
    ensures f + ZoneLength(s[f..]) <= n ==> ZoneLength(s[..n][f..]) == ZoneLength(s[f..])
  {
    assert s[..n][f..] == s[f..][..n - f];
    ZoneOfPrefix(s[f..], n - f);
  }

  lemma TimestampOfPrefix(s: string, n: nat)
    requires n <= |s|
    ensures TimestampLength(s[..n]) > 0 ==> TimestampLength(s) == TimestampLength(s[..n])
    ensures TimestampLength(s) < n ==> TimestampLength(s[..n]) == TimestampLength(s)
  {
    if n >= 19 {
      assert s[..n][..19] == s[..19] && s[..n][19..] == s[19..][..n - 19];
      FractionOfPrefix(s[19..], n - 19);
      var f, g := 19 + FractionLength(s[19..]), 19 + FractionLength(s[..n][19..]);
      if f <= n {
        EndOfPrefix(s, f, n);
      }
      if g != f {
        EndOfPrefix(s, g, n);
      }
    }
  }

  lemma KeyOfPrefix(s: string, n: nat)
    requires n <= |s|
    ensures KeyLength(s[..n]) > 0 ==> KeyLength(s[..n]) == KeyLength(s)
    ensures KeyLength(s) <= n ==> KeyLength(s[..n]) == KeyLength(s)
  {
    var t := s[..n];
    assert "\"time\""[5] == '"' && "\"timestamp\""[5] == 's' && "\"ts\""[2] == 's' && "\"time\""[2] == 'i';
    assert forall i :: 0 <= i < n ==> t[i] == s[i];
  }

  lemma MarkOfPrefix(s: string, from: nat, c: char, n: nat)
    requires from <= n <= |s|
    ensures PastMark(s[..n], from, c) > 0 ==> PastMark(s[..n], from, c) == PastMark(s, from, c)
    ensures PastMark(s, from, c) <= n ==> PastMark(s[..n], from, c) == PastMark(s, from, c)
  {
    assert s[..n][from..] == s[from..][..n - from];
    SpaceRunOfPrefix(s[from..], n - from);
  }

  lemma ValueOfPrefix(s: string, n: nat)
    requires n <= |s|
    ensures ValueStart(s[..n]) > 0 ==> ValueStart(s[..n]) == ValueStart(s)
    ensures ValueStart(s) <= n ==> ValueStart(s[..n]) == ValueStart(s)
  {
    KeyOfPrefix(s, n);
    var k := KeyLength(s);
    if 0 < k <= n {
      MarkOfPrefix(s, k, ':', n);
      var v := PastMark(s, k, ':');
      if 0 < v <= n {
        MarkOfPrefix(s, v, '"', n);
      }
    }
  }

  /** A field that ends before `n` is found in the first `n` characters, and no other field is found there. */
  lemma FieldOfPrefix(s: string, n: nat)
    requires n <= |s|
    ensures var whole, part := TimestampField(s), TimestampField(s[..n]);
            && (part.1 > 0 ==> whole == part)
            && (whole.1 > 0 && whole.0 + whole.1 < n ==> part == whole)
  {
    ValueOfPrefix(s, n);
    var v := ValueStart(s);
    if 0 < v <= n {
      assert s[..n][v..] == s[v..][..n - v];
      TimestampOfPrefix(s[v..], n - v);
    }
  }

  // ----- the words of a field

  /** What stands between two separators of a field: its name, the colon, a timestamp, or what follows a plus sign. */
  predicate IsFieldPiece(w: string) {
    || w == "time" || w == "timestamp" || w == "ts" || w == ":"
    || (|w| >= 19 && IsDateTime(w[..19]))
    || (|w| == 5 && IsDigit(w[0]) && IsDigit(w[1]) && w[2] == ':')
  }

  /** How the words of a field begin. */
  lemma PieceHead(w: string)
    requires IsFieldPiece(w)
    ensures w != []
    ensures w[0] == 't' || w[0] == ':' || (|w| >= 5 && IsDigit(w[0]) && IsDigit(w[1]) && (w[4] == '-' || w[2] == ':'))
  {
    if |w| >= 19 && IsDateTime(w[..19]) {
      assert w[..19][4] == w[4] && w[..19][0] == w[0] && w[..19][1] == w[1];
    }
  }

  /** How the values begin that the later passes replace. */
  lemma ValueHead(q: Pattern, w: string)
    requires InLanguage(q, w)
    ensures w != [] && (IsHexDigit(w[0]) || w[0] == '[')
    ensures |w| >= 5 && IsDigit(w[0]) && IsDigit(w[1]) ==> w[4] != '-' && w[2] != ':'
  {
    LanguageShape(q, w);
    if q == Ip4 {
      GroupsShape(w, 4);
    }
  }

  /** So none of them is a word of a field. */
  lemma ValuesAreNoFieldPieces(q: Pattern, w: string)
    requires InLanguage(q, w)
    ensures w != [] && NoSeparator(w) && !IsFieldPiece(w)
  {
    LanguageShape(q, w);
    ValueHead(q, w);
    if IsFieldPiece(w) {
      PieceHead(w);
    }
  }

  lemma QuotedName(s: string, name: string)
    requires "\"" + name + "\"" <= s && forall i :: 0 <= i < |name| ==> IsWord(name[i])
    ensures var k := |name| + 2;
            k <= |s| && s[0] == '"' && s[k - 1] == '"' && s[1..k - 1] == name
            && forall i :: 0 < i < k - 1 ==> IsWord(s[i])
  {
    var key := "\"" + name + "\"";
    assert forall i :: 0 <= i < |key| ==> s[i] == key[i];
    assert forall i :: 0 <= i < |name| ==> key[i + 1] == name[i];
  }

  lemma KeyChars(s: string)
    requires KeyLength(s) > 0
    ensures var k := KeyLength(s);
            4 <= k <= |s| && s[0] == '"' && s[k - 1] == '"' && IsFieldPiece(s[1..k - 1])
            && forall i :: 0 < i < k - 1 ==> IsWord(s[i])
  {
    var name := if "\"time\"" <= s then "time" else if "\"timestamp\"" <= s then "timestamp" else "ts";
    assert "\"time\"" == "\"" + "time" + "\"" && "\"timestamp\"" == "\"" + "timestamp" + "\"";
    assert "\"ts\"" == "\"" + "ts" + "\"";
    QuotedName(s, name);
  }

  /** The parts of the name of a field, up to the quote its value begins with. */
  lemma NameShape(s: string) returns (k: nat, colon: nat)
    requires ValueStart(s) > 0
    ensures k == KeyLength(s) && 4 <= k <= colon < ValueStart(s) - 1 < |s|
    ensures s[0] == '"' && s[k - 1] == '"' && IsFieldPiece(s[1..k - 1]) && forall i :: 0 < i < k - 1 ==> IsWord(s[i])
    ensures s[colon] == ':' && s[ValueStart(s) - 1] == '"'
    ensures forall i :: k <= i < ValueStart(s) - 1 && i != colon ==> IsSpace(s[i])
  {
    KeyChars(s);
    k := KeyLength(s);
    colon := PastMark(s, k, ':') - 1;
    forall i | k <= i < colon ensures IsSpace(s[i]) {
      assert s[i] == s[k..][i - k];
    }
    forall i | colon < i < ValueStart(s) - 1 ensures IsSpace(s[i]) {
      assert s[i] == s[colon + 1..][i - colon - 1];
    }
  }

  /** Character `i` of a timestamp, which ends with a zone. */
  predicate InTimestamp(s: string, i: nat) {
    i < |s| && (IsDigit(s[i]) || s[i] == '-' || s[i] == 't' || s[i] == ':' || s[i] == '.' || s[i] == 'z')
  }

  /** A timestamp is one stretch between separators, or two that a plus sign parts. */
  lemma TimestampShape(s: string) returns (zone: nat)
    requires TimestampLength(s) > 0
    ensures var n := TimestampLength(s);
            && 19 <= zone < n < |s| && s[n] == '"'
            && IsDateTime(s[..19])
            && (forall i :: 0 <= i < n && i != zone ==> InTimestamp(s, i))
            && (InTimestamp(s, zone)
                || (n == zone + 6 && s[zone] == '+'
                    && IsDigit(s[zone + 1]) && IsDigit(s[zone + 2]) && s[zone + 3] == ':'))
  {
    var rest := s[19..];
    zone := 19 + FractionLength(rest);
    assert forall i :: 0 <= i < 19 ==> s[i] == s[..19][i];
    var d := if FractionLength(rest) > 0 then DigitRun(rest[1..]) else 0;
    forall i | 20 <= i < zone ensures IsDigit(s[i]) {
      assert s[i] == rest[1..][i - 20] == rest[1..][..d][i - 20];
    }
    var z := s[zone..];
    assert forall i :: 0 <= i < |z| ==> z[i] == s[zone + i];
    if ZoneLength(z) == 6 {
      assert z[1] == z[1..3][0] && z[2] == z[1..3][1] && z[4] == z[4..6][0] && z[5] == z[4..6][1];
    }
  }

  /** The stretch of `s` from `p` on, `m` long, is a word between separators. */
  ghost predicate IsWordAt(s: string, p: nat, m: nat) {
    && 0 < p && 0 < m && p + m < |s| && IsSeparator(s[p - 1]) && IsSeparator(s[p + m])
    && forall i :: p <= i < p + m ==> !IsSeparator(s[i])
  }

  /** If it is a word, it is one of those a field consists of. */
  ghost predicate FieldWordAt(s: string, p: nat, m: nat) {
    IsWordAt(s, p, m) ==> IsFieldPiece(s[p..p + m])
  }

  lemma WordOfKey(s: string, k: nat, p: nat, m: nat)
    requires 2 <= k <= |s| && s[k - 1] == '"' && forall i :: 0 < i < k - 1 ==> IsWord(s[i])
    requires IsWordAt(s, p, m) && p < k
    ensures p == 1 && p + m == k - 1
  {
    assert forall i :: 0 < i < k - 1 ==> !IsSeparator(s[i]);
  }

  lemma WordBeforeValue(s: string, k: nat, colon: nat, v: nat, p: nat, m: nat)
    requires k <= colon < v - 1 && v <= |s| && s[v - 1] == '"' && k <= p < v && IsWordAt(s, p, m)
    requires forall i :: k <= i < v - 1 && i != colon ==> IsSpace(s[i])
    ensures p == colon && m == 1
  {
    assert forall i :: k <= i < v && i != colon ==> IsSeparator(s[i]);
    assert IsSeparator(s[colon + 1]) && !IsSeparator(s[p]);
  }

  lemma WordOfName(s: string, p: nat, m: nat)
    requires p < ValueStart(s)
    ensures FieldWordAt(s, p, m)
  {
    if IsWordAt(s, p, m) {
      var k, colon := NameShape(s);
      if p < k {
        WordOfKey(s, k, p, m);
      } else {
        WordBeforeValue(s, k, colon, ValueStart(s), p, m);
        assert s[colon..colon + 1] == ":";
      }
    }
  }

  /** A timestamp has one word, or two with a plus sign between them. */
  lemma FirstWordOfTimestamp(t: string, m: nat)
    requires TimestampLength(t) > 0 && 0 < m <= TimestampLength(t) && IsSeparator(t[m])
    ensures IsFieldPiece(t[..m])
  {
    var zone := TimestampShape(t);
    assert m < 19 ==> InTimestamp(t, m);
    assert t[..m][..19] == t[..19];
  }

  lemma LaterWordOfTimestamp(t: string, i: nat, m: nat)
    requires TimestampLength(t) > 0 && i > 0 && 0 < m && i + m <= TimestampLength(t)
    requires IsSeparator(t[i - 1]) && IsSeparator(t[i + m])
    ensures IsFieldPiece(t[i..i + m])
  {
    var zone := TimestampShape(t);
    assert i - 1 != zone ==> InTimestamp(t, i - 1);
    assert i + m < TimestampLength(t) && i + m != zone ==> InTimestamp(t, i + m);
    var w := t[i..i + m];
    assert w[0] == t[i] && (m > 2 ==> w[1] == t[i + 1] && w[2] == t[i + 2]);
  }

  lemma Shifted(s: string, v: nat, i: nat, m: nat)
    requires v + i + m < |s|
    ensures var t := s[v..];
            t[i..i + m] == s[v + i..v + i + m] && t[i + m] == s[v + i + m] && (i > 0 ==> t[i - 1] == s[v + i - 1])
  {
  }

  lemma WordOfTimestamp(s: string, v: nat, p: nat, m: nat)
    requires v <= |s| && TimestampLength(s[v..]) > 0 && v <= p && p + m <= v + TimestampLength(s[v..])
    ensures FieldWordAt(s, p, m)
  {
    var i := p - v;
    if IsWordAt(s, p, m) {
      Shifted(s, v, i, m);
      if i == 0 {
        FirstWordOfTimestamp(s[v..], m);
      } else {
        LaterWordOfTimestamp(s[v..], i, m);
      }
    }
  }

  lemma WordOfField(s: string, p: nat, m: nat)
    requires TimestampField(s).1 > 0 && p + m <= TimestampField(s).0 + TimestampField(s).1
    ensures FieldWordAt(s, p, m)
  {
    var v := ValueStart(s);
    if p < v {
      WordOfName(s, p, m);
    } else {
      WordOfTimestamp(s, v, p, m);
    }
  }

  /** Up to the quote at `e` there are only words of a field. */
  ghost predicate HasFieldWordsOnly(s: string, e: nat) {
    e < |s| && s[0] == '"' && s[e] == '"' && forall p: nat, m: nat :: p + m <= e ==> FieldWordAt(s, p, m)
  }

  // ----- timestamps around a word

  lemma ClosingQuote(s: string)
    requires TimestampField(s).1 > 0
    ensures var e := TimestampField(s).0 + TimestampField(s).1; e < |s| && s[e] == '"' && s[0] == '"'
  {
    KeyChars(s);
    assert s[ValueStart(s)..][TimestampField(s).1] == s[ValueStart(s) + TimestampField(s).1];
  }

  lemma FieldHasFieldWordsOnly(s: string)
    requires TimestampField(s).1 > 0
    ensures HasFieldWordsOnly(s, TimestampField(s).0 + TimestampField(s).1)
  {
    var r := TimestampField(s);
    ClosingQuote(s);
    forall p: nat, m: nat | p + m <= r.0 + r.1 ensures FieldWordAt(s, p, m) {
      WordOfField(s, p, m);
    }
  }

  lemma NoFieldWithoutQuote(s: string)
    requires s != [] && s[0] != '"'
    ensures TimestampField(s).1 == 0
  {
    if TimestampField(s).1 > 0 {
      ClosingQuote(s);
    }
  }

  /** A word that is none of a field's. */
  ghost predicate IsPlainWord(w: string) { w != [] && NoSeparator(w) && !IsFieldPiece(w) }

  /** What surrounds a word, by position. */
  lemma WordPosition(a: string, w: string, b: string, e: nat)
    requires a != [] && Around(a, b) && w != [] && NoSeparator(w) && |a| <= e < |a| + |w| + |b|
    requires (a + (w + b))[e] == '"'
    ensures var s, m := a + (w + b), |w|;
            |a| + m <= e && s[|a|..|a| + m] == w && IsWordAt(s, |a|, m)
  {
    var s := a + (w + b);
    assert s[|a| - 1] == a[|a| - 1] && s[|a|..|a| + |w|] == w;
    assert forall i :: 0 <= i < |w| ==> s[|a| + i] == w[i];
    assert forall i :: |a| <= i < |a| + |w| ==> s[i] == w[i - |a|];
    assert b != [] ==> s[|a| + |w|] == b[0];
  }

  lemma QuoteBeforeWord(a: string, w: string, b: string, e: nat)
    requires a != [] && Around(a, b) && IsPlainWord(w)
    requires HasFieldWordsOnly(a + (w + b), e)
    ensures e < |a|
  {
    assert |a| + |w| <= e ==> FieldWordAt(a + (w + b), |a|, |w|);
    if e >= |a| {
      WordPosition(a, w, b, e);
    }
  }

  /** A field that begins before a plain word ends before it, or there is none. */
  lemma FieldEndsBeforeWord(a: string, w: string, b: string)
    requires a != [] && Around(a, b) && IsPlainWord(w)
    ensures var r := TimestampField(a + (w + b)); r.1 > 0 ==> r.0 + r.1 < |a|
  {
    var s := a + (w + b);
    if TimestampField(s).1 > 0 {
      FieldHasFieldWordsOnly(s);
      QuoteBeforeWord(a, w, b, TimestampField(s).0 + TimestampField(s).1);
    }
  }

  /** A field that ends before `u` is the same without `u`. */
  lemma SameFieldBefore(a: string, u: string)
    requires var r := TimestampField(a + u); r.1 > 0 ==> r.0 + r.1 < |a|
    ensures SameField(TimestampFinder(), a, a + u)
  {
    assert (a + u)[..|a|] == a;
    FieldOfPrefix(a + u, |a|);
  }

  lemma WordIsPassedOver(w: string, b: string)
    requires NoSeparator(w)
    ensures ReplaceTimestamps(w + b) == w + ReplaceTimestamps(b)
  {
    var find := TimestampFinder();
    forall i | 0 <= i < |w| ensures find(w[i..]).1 == 0 && SameField(find, w[i..], w[i..] + b) {
      assert w[i..][0] == w[i] && (w[i..] + b)[0] == w[i];
      NoFieldWithoutQuote(w[i..]);
      NoFieldWithoutQuote(w[i..] + b);
    }
    FieldsSplit(find, "<timestamp>", w, b);
    NoFieldsUnchanged(find, "<timestamp>", w);
  }

  /** The timestamps before a plain word and those behind it are replaced as if they stood alone. */
  lemma TimestampsAround(a: string, w: string, b: string)
    requires Around(a, b) && IsPlainWord(w)
    ensures ReplaceTimestamps(a + (w + b)) == ReplaceTimestamps(a) + (w + ReplaceTimestamps(b))
  {
    var find := TimestampFinder();
    forall i | 0 <= i < |a| ensures SameField(find, a[i..], a[i..] + (w + b)) {
      FieldEndsBeforeWord(a[i..], w, b);
      SameFieldBefore(a[i..], w + b);
    }
    FieldsSplit(find, "<timestamp>", a, w + b);
    WordIsPassedOver(w, b);
  }

  // ----- one timestamp or another

  /** The name of a timestamp field up to the opening quote of its value, and a timestamp. */
  ghost predicate IsField(name: string, time: string) {
    name != [] && time != [] && TimestampField(name + (time + "\"")) == (|name|, |time|)
  }

  /** Text that does not end inside a timestamp. */
  predicate EndsOutside(a: string) {
    a == [] || (!IsDigit(a[|a| - 1]) && a[|a| - 1] != 'z')
  }

  lemma LastOfTimestamp(t: string)
    requires TimestampLength(t) > 0
    ensures var n := TimestampLength(t); IsDigit(t[n - 1]) || t[n - 1] == 'z'
  {
    var f := 19 + FractionLength(t[19..]);
    var z := t[f..];
    assert forall i :: 0 <= i < |z| ==> z[i] == t[f + i];
    if ZoneLength(z) == 6 {
      assert z[5] == z[4..6][1];
    }
  }

  lemma QuotesOfName(s: string, p: nat)
    requires TimestampField(s).1 > 0 && 0 < p < TimestampField(s).0 && s[p] == '"'
    ensures p + 1 < |s| && s[p + 1] != 't'
  {
    var k, colon := NameShape(s);
    var t := s[ValueStart(s)..];
    assert t[0] == t[..19][0] && t[0] == s[ValueStart(s)];
  }

  lemma NoQuoteInTimestamp(t: string)
    requires TimestampLength(t) > 0
    ensures forall i :: 0 <= i < TimestampLength(t) ==> t[i] != '"'
  {
    var zone := TimestampShape(t);
    forall i | 0 <= i < TimestampLength(t) ensures t[i] != '"' {
      assert i != zone ==> InTimestamp(t, i);
    }
  }

  lemma QuoteOfTimestamp(s: string, p: nat)
    requires var r := TimestampField(s); r.1 > 0 && r.0 <= p <= r.0 + r.1 < |s| && s[p] == '"'
    ensures p > 0 && (IsDigit(s[p - 1]) || s[p - 1] == 'z')
  {
    var v := ValueStart(s);
    var t := s[v..];
    NoQuoteInTimestamp(t);
    LastOfTimestamp(t);
    assert t[p - v] == s[p];
    assert p == v + TimestampLength(t);
    assert t[TimestampLength(t) - 1] == s[p - 1];
  }

  /** A quote that begins another name, and does not close a timestamp, is in no field that begins before it. */
  lemma NameBeginsOutside(s: string, p: nat)
    requires 0 < p && p + 1 < |s| && s[p] == '"' && s[p + 1] == 't' && !IsDigit(s[p - 1]) && s[p - 1] != 'z'
    ensures var r := TimestampField(s); r.1 > 0 ==> r.0 + r.1 < p
  {
    var v, n := TimestampField(s).0, TimestampField(s).1;
    if n > 0 && p < v {
      QuotesOfName(s, p);
    } else if n > 0 && p <= v + n {
      QuoteOfTimestamp(s, p);
    }
  }

  lemma FieldEndsBeforeName(a: string, u: string)
    requires a != [] && EndsOutside(a) && |u| >= 2 && u[0] == '"' && u[1] == 't'
    ensures var r := TimestampField(a + u); r.1 > 0 ==> r.0 + r.1 < |a|
  {
    var s := a + u;
    assert s[|a|] == u[0] && s[|a| + 1] == u[1] && s[|a| - 1] == a[|a| - 1];
    NameBeginsOutside(s, |a|);
  }

  lemma KeyBegins(s: string)
    requires KeyLength(s) > 0
    ensures |s| >= 2 && s[0] == '"' && s[1] == 't'
  {
    assert "\"time\""[0] == '"' && "\"time\""[1] == 't' && "\"timestamp\""[0] == '"' && "\"timestamp\""[1] == 't';
    assert "\"ts\""[0] == '"' && "\"ts\""[1] == 't';
  }

  lemma FieldIsFound(name: string, time: string, b: string)
    requires IsField(name, time)
    ensures TimestampField(name + (time + ("\"" + b))) == (|name|, |time|)
    ensures |name| >= 2 && name[0] == '"' && name[1] == 't'
  {
    var part, s := name + (time + "\""), name + (time + ("\"" + b));
    assert s[..|part|] == part;
    FieldOfPrefix(s, |part|);
    var k, colon := NameShape(part);
    KeyBegins(part);
    assert part[0] == name[0] && part[1] == name[1];
  }

  lemma FieldIsReplaced(name: string, time: string, b: string)
    requires IsField(name, time)
    ensures ReplaceTimestamps(name + (time + ("\"" + b)))
            == FieldHead("<timestamp>", name, '"') + ReplaceTimestamps(b)
  {
    FieldIsFound(name, time, b);
    PartsOf(name, time, "\"", b);
    var s := name + (time + ("\"" + b));
    StepAtField(TimestampFinder(), "<timestamp>", s, |name|, |time|, FieldHead("<timestamp>", name, '"'), b);
  }

  /** A field becomes the same whatever its timestamp, and so does all that stands around it. */
  lemma TimestampIsMasked(a: string, name: string, time: string, b: string)
    requires EndsOutside(a) && IsField(name, time)
    ensures ReplaceTimestamps(a + (name + (time + ("\"" + b))))
            == ReplaceTimestamps(a) + (FieldHead("<timestamp>", name, '"') + ReplaceTimestamps(b))
  {
    var find, u := TimestampFinder(), name + (time + ("\"" + b));
    FieldIsFound(name, time, b);
    assert u[0] == name[0] && u[1] == name[1];
    forall i | 0 <= i < |a| ensures SameField(find, a[i..], a[i..] + u) {
      FieldEndsBeforeName(a[i..], u);
      SameFieldBefore(a[i..], u);
    }
    FieldsSplit(find, "<timestamp>", a, u);
    FieldIsReplaced(name, time, b);
  }
}
